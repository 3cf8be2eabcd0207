/**
 * The bounded retry loop shared by `execWithRetries` (internal/neo4jrunner)
 * and `runCypherWithRetries` (runner.go).
 *
 * The outside world is an `Env`: what attempt `k` returns, whether the
 * query's context is found done after attempt `k` failed, and whether the
 * context ends during the backoff that follows attempt `k`. Sleeping itself
 * is recorded as the list of backoff durations (in milliseconds) that were
 * started.
 */
module Retry {
  import opened Errors

  datatype Attempt<R> = Ok(value: R) | Err(error: Error)

  datatype Env<R> = Env(
    exec: nat -> Attempt<R>,
    doneAfter: nat -> bool,
    sleepCut: nat -> bool,
    ctxErr: Error)

  /** What the loop returned, how many times it called `exec`, and the sleeps it started. */
  datatype Retried<R> = Retried(result: Attempt<R>, attempts: nat, backoffs: seq<nat>)

  /** The backoff after attempt `k` (counted from 0): `200*(k+1)` ms. */
  function Backoff(k: nat): nat {
    200 * (k + 1)
  }

  /**
   * Attempt `k` failed, the context was still live, the error looked
   * transient, and the whole backoff elapsed: the loop goes on.
   */
  predicate Continued<R>(env: Env<R>, transient: Error -> bool, k: nat) {
    env.exec(k).Err? && !env.doneAfter(k) && transient(env.exec(k).error) && !env.sleepCut(k)
  }

  /** The sequence of the first `n` backoffs, `200, 400, ...`. */
  function Backoffs(from: nat, n: nat): (r: seq<nat>)
    ensures |r| == n
    ensures forall j :: 0 <= j < n ==> r[j] == Backoff(from + j)
    decreases n
  {
    if n == 0 then [] else [Backoff(from)] + Backoffs(from + 1, n - 1)
  }

  /**
   * The `for attempt := k; attempt <= retries; attempt++` loop from attempt
   * `k` on, with `last` the value returned when the loop runs out (`lastErr`,
   * or a zero result with a nil error if no attempt was made).
   */
  function Loop<R>(env: Env<R>, transient: Error -> bool, retries: int, k: nat, last: Attempt<R>): (r: Retried<R>)
    ensures k > retries ==> r == Retried(last, k, [])
    ensures k <= retries ==> k < r.attempts <= retries + 1
    ensures forall j :: k <= j < r.attempts - 1 ==> Continued(env, transient, j)
    ensures forall j :: 0 <= j < |r.backoffs| ==> r.backoffs[j] == Backoff(k + j)
    ensures k <= retries ==>
              var n: nat := r.attempts - 1;
              && (env.exec(n).Ok? ==> r.result == env.exec(n) && |r.backoffs| == n - k)
              && (env.exec(n).Err? && env.doneAfter(n) ==> r.result == Err(env.ctxErr) && |r.backoffs| == n - k)
              && (env.exec(n).Err? && !env.doneAfter(n) && !transient(env.exec(n).error) ==>
                    r.result == env.exec(n) && |r.backoffs| == n - k)
              && (env.exec(n).Err? && !env.doneAfter(n) && transient(env.exec(n).error) && env.sleepCut(n) ==>
                    r.result == Err(env.ctxErr) && |r.backoffs| == n - k + 1)
              && (Continued(env, transient, n) ==> n == retries && r.result == env.exec(n) && |r.backoffs| == n - k + 1)
    decreases retries + 1 - k
  {
    if k > retries then Retried(last, k, [])
    else
      var out := env.exec(k);
      if out.Ok? then Retried(out, k + 1, [])
      else if env.doneAfter(k) then Retried(Err(env.ctxErr), k + 1, [])
      else if !transient(out.error) then Retried(out, k + 1, [])
      else if env.sleepCut(k) then Retried(Err(env.ctxErr), k + 1, [Backoff(k)])
      else
        var rest := Loop(env, transient, retries, k + 1, out);
        Retried(rest.result, rest.attempts, [Backoff(k)] + rest.backoffs)
  }

  /** `execWithRetries` of internal/neo4jrunner; `zero` is the empty `ResultSet{}`. */
  function ExecWithRetries<R>(env: Env<R>, retries: int, zero: R): (r: Retried<R>)
    ensures retries < 0 ==> r == Retried(Ok(zero), 0, [])
    ensures retries >= 0 ==> 1 <= r.attempts <= retries + 1
  {
    Loop(env, LooksTransient, retries, 0, Ok(zero))
  }

  /** `runCypherWithRetries` of runner.go; `zero` is the nil row slice. */
  function RunCypherWithRetries<R>(env: Env<R>, retries: int, zero: R): (r: Retried<R>)
    ensures retries < 0 ==> r == Retried(Ok(zero), 0, [])
    ensures retries >= 0 ==> 1 <= r.attempts <= retries + 1
  {
    Loop(env, LegacyLooksTransient, retries, 0, Ok(zero))
  }

  /** The first successful attempt is returned at once, after the backoffs of the failures before it. */
  lemma SuccessReturnedAtOnce<R>(env: Env<R>, transient: Error -> bool, retries: int, j: nat, zero: R)
    requires j <= retries
    requires forall i :: 0 <= i < j ==> Continued(env, transient, i)
    requires env.exec(j).Ok?
    ensures Loop(env, transient, retries, 0, Ok(zero)) == Retried(env.exec(j), j + 1, Backoffs(0, j))
  {
    var r := Loop(env, transient, retries, 0, Ok(zero));
    var n: nat := r.attempts - 1;
    assert !Continued(env, transient, j);
    assert n < j ==> Continued(env, transient, n);
    assert r.backoffs == Backoffs(0, j);
  }

  /** A non-transient error ends the loop after the attempt that produced it. */
  lemma PermanentErrorStops<R>(env: Env<R>, transient: Error -> bool, retries: int, j: nat, zero: R)
    requires j <= retries
    requires forall i :: 0 <= i < j ==> Continued(env, transient, i)
    requires env.exec(j).Err? && !env.doneAfter(j) && !transient(env.exec(j).error)
    ensures Loop(env, transient, retries, 0, Ok(zero)) == Retried(env.exec(j), j + 1, Backoffs(0, j))
  {
    var r := Loop(env, transient, retries, 0, Ok(zero));
    var n: nat := r.attempts - 1;
    assert !Continued(env, transient, j);
    assert n < j ==> Continued(env, transient, n);
    assert r.backoffs == Backoffs(0, j);
  }

  /**
   * A context found done after a failed attempt, or ending during the
   * backoff, makes the context's error the result instead of the attempt's.
   */
  lemma ContextErrorWins<R>(env: Env<R>, transient: Error -> bool, retries: int, j: nat, zero: R)
    requires j <= retries
    requires forall i :: 0 <= i < j ==> Continued(env, transient, i)
    requires env.exec(j).Err?
    requires env.doneAfter(j) || (transient(env.exec(j).error) && env.sleepCut(j))
    ensures Loop(env, transient, retries, 0, Ok(zero)).result == Err(env.ctxErr)
    ensures Loop(env, transient, retries, 0, Ok(zero)).attempts == j + 1
  {
    var r := Loop(env, transient, retries, 0, Ok(zero));
    var n: nat := r.attempts - 1;
    assert !Continued(env, transient, j);
    assert n < j ==> Continued(env, transient, n);
  }

  /**
   * With every attempt failing transiently, `exec` is called `retries+1`
   * times, a backoff follows every attempt including the last, and the last
   * attempt's error is returned.
   */
  lemma ExhaustedReturnsLastError<R>(env: Env<R>, transient: Error -> bool, retries: nat, zero: R)
    requires forall i :: 0 <= i <= retries ==> Continued(env, transient, i)
    ensures Loop(env, transient, retries, 0, Ok(zero)) == Retried(env.exec(retries), retries + 1, Backoffs(0, retries + 1))
  {
    var r := Loop(env, transient, retries, 0, Ok(zero));
    assert Continued(env, transient, r.attempts - 1);
    assert r.backoffs == Backoffs(0, retries + 1);
  }

  /** Only the classifier's verdicts matter: equal verdicts give equal loops. */
  lemma {:induction false} LoopClassifierCongruence<R>(env: Env<R>, t1: Error -> bool, t2: Error -> bool, retries: int, k: nat, last: Attempt<R>)
    requires forall e :: t1(e) == t2(e)
    ensures Loop(env, t1, retries, k, last) == Loop(env, t2, retries, k, last)
    decreases retries + 1 - k
  {
    if k <= retries && env.exec(k).Err? {
      LoopClassifierCongruence(env, t1, t2, retries, k + 1, env.exec(k));
    }
  }

  /** The two runner copies behave identically on every environment. */
  lemma RunnersAgree<R>(env: Env<R>, retries: int, zero: R)
    ensures ExecWithRetries(env, retries, zero) == RunCypherWithRetries(env, retries, zero)
  {
    forall e: Error
      ensures LooksTransient(e) == LegacyLooksTransient(e)
    {
      LooksTransientAgree(e);
    }
    LoopClassifierCongruence(env, LooksTransient, LegacyLooksTransient, retries, 0, Ok(zero));
  }

  /** One iteration of the loop: how attempt `k` ends it or hands over to attempt `k+1`. */
  lemma LoopStep<R>(env: Env<R>, transient: Error -> bool, retries: int, k: nat, last: Attempt<R>)
    requires k <= retries
    ensures env.exec(k).Ok? ==> Loop(env, transient, retries, k, last) == Retried(env.exec(k), k + 1, [])
    ensures env.exec(k).Err? && env.doneAfter(k) ==>
              Loop(env, transient, retries, k, last) == Retried(Err(env.ctxErr), k + 1, [])
    ensures env.exec(k).Err? && !env.doneAfter(k) && !transient(env.exec(k).error) ==>
              Loop(env, transient, retries, k, last) == Retried(env.exec(k), k + 1, [])
    ensures env.exec(k).Err? && !env.doneAfter(k) && transient(env.exec(k).error) && env.sleepCut(k) ==>
              Loop(env, transient, retries, k, last) == Retried(Err(env.ctxErr), k + 1, [Backoff(k)])
    ensures Continued(env, transient, k) ==>
              var rest := Loop(env, transient, retries, k + 1, env.exec(k));
              Loop(env, transient, retries, k, last) == Retried(rest.result, rest.attempts, [Backoff(k)] + rest.backoffs)
  {
  }

  /**
   * The loop as the Go code writes it, with `lastErr` carried across
   * iterations and the backoff recorded before the sleep that may be cut.
   */
  method RetryLoop<R>(env: Env<R>, transient: Error -> bool, retries: int, zero: R)
    returns (result: Attempt<R>, attempts: nat, backoffs: seq<nat>)
    ensures Retried(result, attempts, backoffs) == Loop(env, transient, retries, 0, Ok(zero))
  {
    var last: Attempt<R> := Ok(zero);
    var attempt: nat := 0;
    attempts := 0;
    backoffs := [];
    ghost var whole := Loop(env, transient, retries, 0, Ok(zero));
    while attempt <= retries
      invariant attempts == attempt
      invariant whole.result == Loop(env, transient, retries, attempt, last).result
      invariant whole.attempts == Loop(env, transient, retries, attempt, last).attempts
      invariant whole.backoffs == backoffs + Loop(env, transient, retries, attempt, last).backoffs
      decreases retries + 1 - attempt
    {
      var out := env.exec(attempt);
      LoopStep(env, transient, retries, attempt, last);
      attempts := attempt + 1;
      if out.Ok? {
        result := out;
        return;
      }
      if env.doneAfter(attempt) {
        result := Err(env.ctxErr);
        return;
      }
      if !transient(out.error) {
        result := out;
        return;
      }
      var b := Backoff(attempt);
      if env.sleepCut(attempt) {
        backoffs := backoffs + [b];
        result := Err(env.ctxErr);
        return;
      }
      ghost var rest := Loop(env, transient, retries, attempt + 1, out);
      assert backoffs + ([b] + rest.backoffs) == (backoffs + [b]) + rest.backoffs;
      backoffs := backoffs + [b];
      last := out;
      attempt := attempt + 1;
    }
    result := last;
  }
}
