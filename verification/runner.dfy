/**
 * The sequential skeleton of `Run` (internal/neo4jrunner): the options are
 * clamped, every job is run through the retry loop, and its result is
 * written into the slot its `Index` names.
 *
 * The worker pool only decides how many jobs are dispatched. The producer
 * sends the jobs in slice order and stops only after a fail-fast stop, so
 * the dispatched jobs are a prefix of `jobs`, and that prefix is cut short
 * only when fail-fast is on and some job in it has failed. The length of
 * the prefix is a parameter.
 */
module Runner {
  import opened Wrappers
  import opened Errors
  import opened Retry
  import opened ResultSets

  datatype QueryJob = QueryJob(index: int, id: string, name: string, cypher: string)

  datatype QueryResult = QueryResult(resultSet: ResultSet, err: Option<Error>, skipped: bool, skipWhy: string)

  /** The zero `QueryResult{}`: empty result, nil error, not skipped. */
  const ZeroResult: QueryResult := QueryResult(EmptyResult, None, false, "")

  /** `RunnerOpts`; the per-query timeout is in whole seconds. */
  datatype RunnerOpts = RunnerOpts(
    db: string, limit: int, parallel: int, perQueryTimeout: int,
    retries: int, failFast: bool, verbose: bool)

  /** The clamping at the top of `Run`: at least one worker and no negative retry count. */
  function Clamp(o: RunnerOpts): (c: RunnerOpts)
    ensures c.parallel >= 1 && c.retries >= 0
    ensures o.parallel >= 1 ==> c.parallel == o.parallel
    ensures o.retries >= 0 ==> c.retries == o.retries
    ensures c.(parallel := o.parallel, retries := o.retries) == o
  {
    o.(parallel := if o.parallel < 1 then 1 else o.parallel,
       retries := if o.retries < 0 then 0 else o.retries)
  }

  /** Clamping options that are already in range changes nothing, so clamping twice is clamping once. */
  lemma ClampIdempotent(o: RunnerOpts)
    ensures Clamp(Clamp(o)) == Clamp(o)
    ensures o.parallel >= 1 && o.retries >= 0 ==> Clamp(o) == o
  {
  }

  /**
   * What a worker stores for one job: the retry loop's result set on
   * success, the empty result set and the error otherwise. `Skipped` is
   * never set here.
   */
  function JobResult(env: Env<ResultSet>, c: RunnerOpts): (r: QueryResult)
    requires c.retries >= 0
    ensures !r.skipped && r.skipWhy == ""
    ensures r.err.Some? ==> r.resultSet == EmptyResult
    ensures r.err.None? <==> ExecWithRetries(env, c.retries, EmptyResult).result.Ok?
    ensures r.err.None? ==> exists k :: 0 <= k <= c.retries && env.exec(k) == Ok(r.resultSet)
    ensures ExecWithRetries(env, c.retries, EmptyResult).result == (if r.err.Some? then Err(r.err.value) else Ok(r.resultSet))
  {
    var t := ExecWithRetries(env, c.retries, EmptyResult);
    var n: nat := t.attempts - 1;
    assert t.result.Ok? ==> env.exec(n) == t.result;
    match t.result
    case Ok(rs) => QueryResult(rs, None, false, "")
    case Err(e) => QueryResult(EmptyResult, Some(e), false, "")
  }

  /** The jobs `Run` may be handed: every `Index` is a slot of the output slice. */
  predicate IndexesInRange(jobs: seq<QueryJob>) {
    forall i :: 0 <= i < |jobs| ==> 0 <= jobs[i].index < |jobs|
  }

  /**
   * A dispatched prefix of length `d` the pool can produce: all jobs, or a
   * shorter prefix holding a failed job when fail-fast is on.
   */
  predicate Dispatchable(jobs: seq<QueryJob>, c: RunnerOpts, envOf: QueryJob -> Env<ResultSet>, d: nat)
    requires c.retries >= 0
  {
    d <= |jobs| &&
    (d < |jobs| ==> c.failFast && exists i :: 0 <= i < d && JobResult(envOf(jobs[i]), c).err.Some?)
  }

  /**
   * `Run`: one result per job slot. A dispatched job that shares its `Index`
   * with no other dispatched job has its result at that index; a slot that
   * several dispatched jobs name holds one of their results, since the
   * workers race for it; a slot no dispatched job names keeps the zero value.
   */
  method Run(jobs: seq<QueryJob>, opts: RunnerOpts, envOf: QueryJob -> Env<ResultSet>, dispatched: nat)
    returns (out: seq<QueryResult>)
    requires IndexesInRange(jobs)
    requires Dispatchable(jobs, Clamp(opts), envOf, dispatched)
    ensures |out| == |jobs|
    ensures forall i :: 0 <= i < dispatched && (forall j :: 0 <= j < dispatched && j != i ==> jobs[j].index != jobs[i].index) ==>
              out[jobs[i].index] == JobResult(envOf(jobs[i]), Clamp(opts))
    ensures forall s :: 0 <= s < |jobs| && Claims(jobs, Results(jobs, envOf, Clamp(opts)), dispatched, s) != [] ==>
              out[s] in Claims(jobs, Results(jobs, envOf, Clamp(opts)), dispatched, s)
    ensures forall s :: 0 <= s < |jobs| && (forall i :: 0 <= i < dispatched ==> jobs[i].index != s) ==>
              out[s] == ZeroResult
  {
    var c := Clamp(opts);
    var rs := Results(jobs, envOf, c);
    out := Store(jobs, rs, dispatched);
    WrittenSole(jobs, rs, dispatched);
    WrittenShared(jobs, rs, dispatched);
    WrittenSlots(jobs, rs, dispatched);
  }

  /** What each job's worker computes, job by job. */
  function Results(jobs: seq<QueryJob>, envOf: QueryJob -> Env<ResultSet>, c: RunnerOpts): (rs: seq<QueryResult>)
    requires c.retries >= 0
    ensures |rs| == |jobs|
    ensures forall k :: 0 <= k < |jobs| ==> rs[k] == JobResult(envOf(jobs[k]), c)
  {
    seq(|jobs|, k requires 0 <= k < |jobs| => JobResult(envOf(jobs[k]), c))
  }

  /** The results of the first `n` jobs whose `Index` is `s`, in dispatch order: the writes racing for slot `s`. */
  function Claims(jobs: seq<QueryJob>, rs: seq<QueryResult>, n: nat, s: nat): seq<QueryResult>
    requires |rs| == |jobs| && n <= |jobs|
  {
    if n == 0 then [] else Claims(jobs, rs, n - 1, s) + (if jobs[n - 1].index == s then [rs[n - 1]] else [])
  }

  /** Slot `s` has a claim exactly when one of the first `n` jobs names it, and each claim is such a job's result. */
  lemma {:induction false} ClaimsOfNamers(jobs: seq<QueryJob>, rs: seq<QueryResult>, n: nat, s: nat)
    requires |rs| == |jobs| && n <= |jobs|
    ensures Claims(jobs, rs, n, s) != [] <==> exists k :: 0 <= k < n && jobs[k].index == s
    ensures forall v :: v in Claims(jobs, rs, n, s) ==> exists k :: 0 <= k < n && jobs[k].index == s && rs[k] == v
  {
    if n > 0 {
      ClaimsOfNamers(jobs, rs, n - 1, s);
    }
  }

  /** The workers' writes, in dispatch order: slot `jobs[i].index` receives `rs[i]`. */
  method Store(jobs: seq<QueryJob>, rs: seq<QueryResult>, n: nat) returns (out: seq<QueryResult>)
    requires IndexesInRange(jobs) && |rs| == |jobs| && n <= |jobs|
    ensures out == Written(jobs, rs, n)
  {
    out := seq(|jobs|, _ => ZeroResult);
    var i := 0;
    while i < n
      invariant 0 <= i <= n
      invariant out == Written(jobs, rs, i)
    {
      out := out[jobs[i].index := rs[i]];
      i := i + 1;
    }
  }

  /** Both facts about the written slice: last writer wins, and unwritten slots stay zero. */
  lemma WrittenSlots(jobs: seq<QueryJob>, rs: seq<QueryResult>, n: nat)
    requires IndexesInRange(jobs) && |rs| == |jobs| && n <= |jobs|
    ensures forall i :: 0 <= i < n && (forall j :: i < j < n ==> jobs[j].index != jobs[i].index) ==>
              Written(jobs, rs, n)[jobs[i].index] == rs[i]
    ensures forall s :: 0 <= s < |jobs| && (forall k :: 0 <= k < n ==> jobs[k].index != s) ==>
              Written(jobs, rs, n)[s] == ZeroResult
  {
    WrittenLastAll(jobs, rs, n);
    WrittenUntouchedAll(jobs, rs, n);
  }

  lemma WrittenLastAll(jobs: seq<QueryJob>, rs: seq<QueryResult>, n: nat)
    requires IndexesInRange(jobs) && |rs| == |jobs| && n <= |jobs|
    ensures forall i :: 0 <= i < n && (forall j :: i < j < n ==> jobs[j].index != jobs[i].index) ==>
              Written(jobs, rs, n)[jobs[i].index] == rs[i]
  {
    forall i | 0 <= i < n && (forall j :: i < j < n ==> jobs[j].index != jobs[i].index)
      ensures Written(jobs, rs, n)[jobs[i].index] == rs[i]
    {
      WrittenLast(jobs, rs, n, i);
    }
  }

  lemma WrittenUntouchedAll(jobs: seq<QueryJob>, rs: seq<QueryResult>, n: nat)
    requires IndexesInRange(jobs) && |rs| == |jobs| && n <= |jobs|
    ensures forall s :: 0 <= s < |jobs| && (forall k :: 0 <= k < n ==> jobs[k].index != s) ==>
              Written(jobs, rs, n)[s] == ZeroResult
  {
    forall s | 0 <= s < |jobs| && (forall k :: 0 <= k < n ==> jobs[k].index != s)
      ensures Written(jobs, rs, n)[s] == ZeroResult
    {
      WrittenUntouched(jobs, rs, n, s);
    }
  }

  /** The slice after the first `n` jobs have stored their results `rs`, in order. */
  function Written(jobs: seq<QueryJob>, rs: seq<QueryResult>, n: nat): (out: seq<QueryResult>)
    requires IndexesInRange(jobs) && |rs| == |jobs| && n <= |jobs|
    ensures |out| == |jobs|
  {
    if n == 0 then seq(|jobs|, _ => ZeroResult)
    else Written(jobs, rs, n - 1)[jobs[n - 1].index := rs[n - 1]]
  }

  /** A job that no later job overwrites leaves its own result in its slot. */
  lemma {:induction false} WrittenLast(jobs: seq<QueryJob>, rs: seq<QueryResult>, n: nat, i: nat)
    requires IndexesInRange(jobs) && |rs| == |jobs| && i < n <= |jobs|
    requires forall j :: i < j < n ==> jobs[j].index != jobs[i].index
    ensures Written(jobs, rs, n)[jobs[i].index] == rs[i]
  {
    if i < n - 1 {
      WrittenLast(jobs, rs, n - 1, i);
    }
  }

  /** Every slot a written job names holds one of that slot's claims. */
  lemma {:induction false} WrittenShared(jobs: seq<QueryJob>, rs: seq<QueryResult>, n: nat)
    requires IndexesInRange(jobs) && |rs| == |jobs| && n <= |jobs|
    ensures forall s :: 0 <= s < |jobs| && Claims(jobs, rs, n, s) != [] ==> Written(jobs, rs, n)[s] in Claims(jobs, rs, n, s)
  {
    if n > 0 {
      WrittenShared(jobs, rs, n - 1);
      forall s | 0 <= s < |jobs| && Claims(jobs, rs, n, s) != []
        ensures Written(jobs, rs, n)[s] in Claims(jobs, rs, n, s)
      {
        if jobs[n - 1].index != s {
          assert Claims(jobs, rs, n, s) == Claims(jobs, rs, n - 1, s);
        }
      }
    }
  }

  /** A job whose slot no other written job names leaves its own result there. */
  lemma WrittenSole(jobs: seq<QueryJob>, rs: seq<QueryResult>, n: nat)
    requires IndexesInRange(jobs) && |rs| == |jobs| && n <= |jobs|
    ensures forall i :: 0 <= i < n && (forall j :: 0 <= j < n && j != i ==> jobs[j].index != jobs[i].index) ==>
              Written(jobs, rs, n)[jobs[i].index] == rs[i]
  {
    forall i | 0 <= i < n && (forall j :: 0 <= j < n && j != i ==> jobs[j].index != jobs[i].index)
      ensures Written(jobs, rs, n)[jobs[i].index] == rs[i]
    {
      WrittenLast(jobs, rs, n, i);
    }
  }

  /** A slot no written job names keeps the zero value. */
  lemma {:induction false} WrittenUntouched(jobs: seq<QueryJob>, rs: seq<QueryResult>, n: nat, s: nat)
    requires IndexesInRange(jobs) && |rs| == |jobs| && n <= |jobs| && s < |jobs|
    requires forall k :: 0 <= k < n ==> jobs[k].index != s
    ensures Written(jobs, rs, n)[s] == ZeroResult
  {
    if n > 0 {
      WrittenUntouched(jobs, rs, n - 1, s);
    }
  }

  /** Without fail-fast, or without a failing job, every job is dispatched. */
  lemma NoStopDispatchesAll(jobs: seq<QueryJob>, opts: RunnerOpts, envOf: QueryJob -> Env<ResultSet>, d: nat)
    requires Dispatchable(jobs, Clamp(opts), envOf, d)
    requires !opts.failFast || forall i :: 0 <= i < |jobs| ==> JobResult(envOf(jobs[i]), Clamp(opts)).err.None?
    ensures d == |jobs|
  {
  }
}
