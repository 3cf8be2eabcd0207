/**
 * The single-package program at the repository root (main.go, runner.go,
 * schema.go): its own query record and copies of the selection helpers,
 * the smaller header alias table, the query listing order, identifier
 * sanitising for the schema probe, and the slot mapping of
 * `runQueriesParallel`.
 */
module Legacy {
  import opened Wrappers
  import opened Ascii
  import opened Lex
  import opened Errors
  import opened Retry
  import opened ResultSets
  import opened Catalog
  import Cli

  /** The root `Query`: the catalog entry without resolved column keys. */
  datatype LegacyQuery = LegacyQuery(
    id: string,
    title: string,
    category: string,
    sheetName: string,
    headers: seq<string>,
    description: string,
    findingTitle: string,
    cypher: string)

  /** The catalog entry with the same fields and no column keys. */
  function Lift(q: LegacyQuery): (r: Query)
    ensures r.columnKeys == [] && r.id == q.id && r.category == q.category
  {
    Query(q.id, q.title, q.category, q.sheetName, q.headers, q.description, q.findingTitle, q.cypher, [])
  }

  function LiftAll(qs: seq<LegacyQuery>): (r: seq<Query>)
    ensures |r| == |qs|
    ensures forall i :: 0 <= i < |qs| ==> r[i] == Lift(qs[i])
  {
    seq(|qs|, i requires 0 <= i < |qs| => Lift(qs[i]))
  }

  lemma LiftAllConcat(a: seq<LegacyQuery>, b: seq<LegacyQuery>)
    ensures LiftAll(a + b) == LiftAll(a) + LiftAll(b)
  {
  }

  // ---------------------------------------------------------------------
  // Selection

  /** The EntraID filter of `collectQueries`. */
  function DropEntra(qs: seq<LegacyQuery>): (r: seq<LegacyQuery>)
    ensures LiftAll(r) == Cli.DropEntra(LiftAll(qs))
  {
    if |qs| == 0 then []
    else
      var rest := DropEntra(qs[1..]);
      assert LiftAll(qs)[1..] == LiftAll(qs[1..]);
      LiftAllConcat(if EqualFold(qs[0].category, "EntraID") then [] else [qs[0]], rest);
      (if EqualFold(qs[0].category, "EntraID") then [] else [qs[0]]) + rest
  }

  /**
   * `collectQueries`: the finding queries, then the INFO queries when asked
   * for, EntraID queries removed unless asked for; the same selection the
   * command-line program starts from.
   */
  function CollectQueries(findings: seq<LegacyQuery>, infos: seq<LegacyQuery>, includeInfo: bool, includeEntra: bool)
    : (r: seq<LegacyQuery>)
    ensures LiftAll(r) == Cli.Collect(LiftAll(findings), LiftAll(infos), includeInfo, includeEntra)
  {
    var qs := findings + (if includeInfo then infos else []);
    LiftAllConcat(findings, if includeInfo then infos else []);
    if includeEntra then qs
    else
      Cli.DropEntraConcat(LiftAll(findings), LiftAll(if includeInfo then infos else []));
      DropEntra(qs)
  }

  /** The category selection loop of `filterQueriesStrict`. */
  function SelectCategory(qs: seq<LegacyQuery>, c: string): (r: seq<LegacyQuery>)
    ensures LiftAll(r) == Catalog.SelectCategory(LiftAll(qs), c)
  {
    if |qs| == 0 then []
    else
      var rest := SelectCategory(qs[1..], c);
      assert LiftAll(qs)[1..] == LiftAll(qs[1..]);
      LiftAllConcat([qs[0]], rest);
      if EqualFold(qs[0].category, c) then [qs[0]] + rest else rest
  }

  /**
   * `filterQueriesStrict`: the identity for a blank or `all` category, an
   * error for an unknown one, else the matching queries in order; it agrees
   * with `Catalog.FilterCategoryStrict` on every input.
   */
  function FilterQueriesStrict(qs: seq<LegacyQuery>, category: string): (r: Result<seq<LegacyQuery>, CategoryError>)
    ensures MeansAll(category) ==> r == Success(qs)
    ensures r.Failure? <==> FilterCategoryStrict(LiftAll(qs), category).Failure?
    ensures r.Failure? ==> r.error == FilterCategoryStrict(LiftAll(qs), category).error
    ensures r.Success? ==> LiftAll(r.value) == FilterCategoryStrict(LiftAll(qs), category).value
  {
    var c := TrimSpace(category);
    if c == [] || EqualFold(c, "all") then Success(qs)
    else if Lower(c) !in {"ad", "entraid", "info"} then Failure(InvalidCategory(c))
    else Success(SelectCategory(qs, c))
  }

  /** `findQueryByID` of main.go: the same first exact match as the command-line copy. */
  function FindQueryById(qs: seq<LegacyQuery>, id: string): (r: Option<LegacyQuery>)
    ensures r.None? <==> Cli.FindQueryById(LiftAll(qs), id).None?
    ensures r.Some? ==> Cli.FindQueryById(LiftAll(qs), id) == Some(Lift(r.value))
  {
    if |qs| == 0 then None
    else if qs[0].id == id then Some(qs[0])
    else
      assert LiftAll(qs)[1..] == LiftAll(qs[1..]);
      FindQueryById(qs[1..], id)
  }

  // ---------------------------------------------------------------------
  // headerToKey

  /** The alias switch of the root `headerToKey`: a subset of the catalog's. */
  function LegacyAlias(h: string): Option<string> {
    if h == "hostname" || h == "computer" then Some("computer")
    else if h == "operating system" || h == "os" then Some("os")
    else if h == "user" || h == "username" then Some("user")
    else if h == "principal" then Some("principal")
    else if h == "type" then Some("type")
    else if h == "description" then Some("description")
    else None
  }

  /** The root `headerToKey`: alias or blank-to-underscore, on the trimmed, lower-cased header. */
  function LegacyHeaderToKey(h: string): (k: string)
    ensures IsKey(k)
    ensures LegacyAlias(Normal(h)).Some? ==> k == LegacyAlias(Normal(h)).value
    ensures LegacyAlias(Normal(h)).None? ==> |k| == |Normal(h)|
    ensures LegacyAlias(Normal(h)).None? ==> forall i :: 0 <= i < |k| ==> k[i] == (if Normal(h)[i] == ' ' then '_' else Normal(h)[i])
  {
    var t := Normal(h);
    match LegacyAlias(t)
    case Some(v) => LegacyAliasIsKey(t); v
    case None => UnderscoredIsKey(t); ReplaceChar(t, ' ', '_')
  }

  lemma LegacyAliasIsKey(t: string)
    requires LegacyAlias(t).Some?
    ensures IsKey(LegacyAlias(t).value)
  {
    FirstAliasKeys();
    MiddleAliasKeys();
  }

  /** Turning blanks into `_` in a normal header leaves a key. */
  lemma UnderscoredIsKey(t: string)
    requires IsLowerCase(t) && (t == [] || (!IsSpace(t[0]) && !IsSpace(t[|t| - 1])))
    ensures IsKey(ReplaceChar(t, ' ', '_'))
  {
  }

  /** The root table is the first six entries of the catalog table. */
  lemma LegacyAliasSubset(t: string)
    ensures LegacyAlias(t).Some? ==> Alias(t) == LegacyAlias(t)
    ensures Alias(t).None? ==> LegacyAlias(t).None?
  {
  }

  /** Wherever the root table has an alias, or the catalog table has none, the two functions agree. */
  lemma LegacyAgreesWithCatalog(h: string)
    requires LegacyAlias(Normal(h)).Some? || Alias(Normal(h)).None?
    ensures LegacyHeaderToKey(h) == HeaderToKey(h)
  {
    var t := Normal(h);
    LegacyAliasSubset(t);
    if LegacyAlias(t).Some? {
      assert LegacyHeaderToKey(h) == LegacyAlias(t).value == Alias(t).value == HeaderToKey(h);
    } else {
      assert LegacyHeaderToKey(h) == ReplaceChar(t, ' ', '_') == HeaderToKey(h);
    }
  }

  lemma PasswordSetUnderscored()
    ensures ReplaceChar("password set", ' ', '_') == "password_set"
  {
  }

  /** Where the tables differ: ` Password Set ` is `password_set` here, `pwdlastset` in the catalog. */
  lemma PasswordSetDiffers()
    ensures LegacyHeaderToKey(" Password Set ") == "password_set"
    ensures HeaderToKey(" Password Set ") == "pwdlastset"
  {
    PasswordSetTrimmed();
    PasswordSetLowered();
    PasswordSetUnderscored();
    PasswordSetIsPwdLastSet();
  }

  /** Blank-to-underscore with no underscore in the result changed nothing. */
  lemma UnderscoreFreeUnchanged(t: string)
    requires forall i :: 0 <= i < |t| ==> ReplaceChar(t, ' ', '_')[i] != '_'
    ensures ReplaceChar(t, ' ', '_') == t
  {
  }

  /** Every value of the root table maps to itself. */
  lemma LegacyAliasFixed(t: string)
    requires LegacyAlias(t).Some?
    ensures LegacyAlias(LegacyAlias(t).value) == LegacyAlias(t)
  {
  }

  /** The blank-free spellings in the root table have no underscore. */
  lemma LegacyAliasNoUnderscore(k: string)
    requires LegacyAlias(k).Some? && k != "operating system"
    ensures forall i :: 0 <= i < |k| ==> k[i] != '_'
  {
  }

  /** The default branch never produces a spelling the root table would map. */
  lemma DefaultNotLegacyAlias(t: string)
    requires LegacyAlias(t).None?
    ensures LegacyAlias(ReplaceChar(t, ' ', '_')).None?
  {
    var k := ReplaceChar(t, ' ', '_');
    if LegacyAlias(k).Some? {
      LegacyAliasNoUnderscore(k);
      UnderscoreFreeUnchanged(t);
      assert false;
    }
  }

  /** A key with no entry in the root table is its own key. */
  lemma UnmappedKeyFixed(k: string)
    requires IsKey(k) && LegacyAlias(k).None?
    ensures LegacyHeaderToKey(k) == k
  {
    NormalOfKey(k);
    assert ReplaceChar(k, ' ', '_') == k;
  }

  /** The root `headerToKey` is idempotent too. */
  lemma LegacyHeaderToKeyIdempotent(h: string)
    ensures LegacyHeaderToKey(LegacyHeaderToKey(h)) == LegacyHeaderToKey(h)
  {
    var k := LegacyHeaderToKey(h);
    var t := Normal(h);
    if LegacyAlias(t).Some? {
      NormalOfKey(k);
      LegacyAliasFixed(t);
    } else {
      DefaultNotLegacyAlias(t);
      UnmappedKeyFixed(k);
    }
  }

  // ---------------------------------------------------------------------
  // printQueryList

  /** The comparator of `printQueryList`: by category, then by ID, in byte order. */
  predicate ListLess(a: LegacyQuery, b: LegacyQuery) {
    if a.category != b.category then LexLess(a.category, b.category) else LexLess(a.id, b.id)
  }

  lemma ListLessAsymmetric(a: LegacyQuery, b: LegacyQuery)
    requires ListLess(a, b)
    ensures !ListLess(b, a)
  {
    if a.category != b.category {
      LexAsymmetric(a.category, b.category);
    } else {
      LexAsymmetric(a.id, b.id);
    }
  }

  /** If `a` precedes `c`, any `b` follows `a` or precedes `c`. */
  lemma {:induction false} ListLessCotransitive(a: LegacyQuery, b: LegacyQuery, c: LegacyQuery)
    requires ListLess(a, c)
    ensures ListLess(a, b) || ListLess(b, c)
  {
    if a.category != c.category {
      if b.category != a.category && b.category != c.category {
        LexTotal(a.category, b.category);
        if LexLess(b.category, a.category) {
          LexTransitive(b.category, a.category, c.category);
        }
      }
    } else if b.category == a.category {
      if b.id != a.id {
        LexTotal(a.id, b.id);
        if LexLess(b.id, a.id) {
          LexTransitive(b.id, a.id, c.id);
        }
      }
    } else {
      LexTotal(a.category, b.category);
    }
  }

  /** No query is listed before one it should follow. */
  predicate ListSorted(s: seq<LegacyQuery>) {
    forall i, j :: 0 <= i < j < |s| ==> !ListLess(s[j], s[i])
  }

  /** An order `sort.Slice` may leave behind: a permutation sorted by the comparator, ties in any order. */
  predicate IsListOrder(r: seq<LegacyQuery>, qs: seq<LegacyQuery>) {
    multiset(r) == multiset(qs) && ListSorted(r)
  }

  lemma ListSortedCons(h: LegacyQuery, t: seq<LegacyQuery>)
    requires ListSorted(t)
    requires forall j :: 0 <= j < |t| ==> !ListLess(t[j], h)
    ensures ListSorted([h] + t)
  {
    var s := [h] + t;
    forall i, j | 0 <= i < j < |s|
      ensures !ListLess(s[j], s[i])
    {
      if i > 0 {
        assert s[i] == t[i - 1] && s[j] == t[j - 1];
      }
    }
  }

  lemma ListInsertBound(x: LegacyQuery, s: seq<LegacyQuery>, rest: seq<LegacyQuery>)
    requires ListSorted(s) && |s| > 0 && ListLess(s[0], x)
    requires multiset(rest) == multiset(s[1..]) + multiset{x}
    ensures forall j :: 0 <= j < |rest| ==> !ListLess(rest[j], s[0])
  {
    ListLessAsymmetric(s[0], x);
    forall j | 0 <= j < |rest|
      ensures !ListLess(rest[j], s[0])
    {
      assert rest[j] in multiset(rest);
      if rest[j] != x {
        assert rest[j] in multiset(s[1..]);
        var k :| 0 <= k < |s[1..]| && s[1..][k] == rest[j];
        assert s[k + 1] == rest[j];
      }
    }
  }

  function ListInsert(x: LegacyQuery, s: seq<LegacyQuery>): (r: seq<LegacyQuery>)
    requires ListSorted(s)
    ensures ListSorted(r)
    ensures multiset(r) == multiset(s) + multiset{x}
  {
    if |s| == 0 then [x]
    else if !ListLess(s[0], x) then
      assert forall j :: 0 <= j < |s| ==> !ListLess(s[j], x) by {
        forall j | 0 <= j < |s| ensures !ListLess(s[j], x) {
          if ListLess(s[j], x) {
            ListLessCotransitive(s[j], s[0], x);
          }
        }
      }
      ListSortedCons(x, s);
      [x] + s
    else
      var rest := ListInsert(x, s[1..]);
      assert s == [s[0]] + s[1..];
      ListInsertBound(x, s, rest);
      ListSortedCons(s[0], rest);
      [s[0]] + rest
  }

  /** One of the orders `printQueryList` may print the queries in. */
  function ListOrder(qs: seq<LegacyQuery>): (r: seq<LegacyQuery>)
    ensures IsListOrder(r, qs)
  {
    if |qs| == 0 then []
    else
      assert qs == [qs[0]] + qs[1..];
      ListInsert(qs[0], ListOrder(qs[1..]))
  }

  /** In any listing order, a query of a smaller category comes first. */
  lemma ListOrderByCategory(r: seq<LegacyQuery>, qs: seq<LegacyQuery>, i: nat, j: nat)
    requires IsListOrder(r, qs) && i < |r| && j < |r|
    requires LexLess(r[i].category, r[j].category)
    ensures i < j
  {
    LexIrreflexive(r[i].category);
    assert ListLess(r[i], r[j]);
  }

  // ---------------------------------------------------------------------
  // schema.go

  /** The identifier characters of `s`, in order. */
  function KeepIdent(s: string): (r: string)
    ensures |r| <= |s|
    ensures forall i :: 0 <= i < |r| ==> IsIdentChar(r[i])
    ensures (forall i :: 0 <= i < |s| ==> IsIdentChar(s[i])) ==> r == s
  {
    if |s| == 0 then ""
    else (if IsIdentChar(s[0]) then [s[0]] else "") + KeepIdent(s[1..])
  }

  /** `neo4jQuoteIdent`: only identifier characters survive, and `X` stands in for nothing. */
  function QuoteIdent(s: string): (r: string)
    ensures |r| >= 1
    ensures forall i :: 0 <= i < |r| ==> IsIdentChar(r[i])
    ensures s != [] && (forall i :: 0 <= i < |s| ==> IsIdentChar(s[i])) ==> r == s
  {
    var out := KeepIdent(s);
    if out == "" then "X" else out
  }

  /** Sanitising twice is sanitising once. */
  lemma QuoteIdentIdempotent(s: string)
    ensures QuoteIdent(QuoteIdent(s)) == QuoteIdent(s)
  {
  }

  const SampleCap: nat := 40
  const Ellipsis: string := "…"

  /** The cut of the property samples: the first forty keys and an ellipsis when there are more. */
  function CapSample(keys: seq<string>): (r: seq<string>)
    ensures |r| <= SampleCap + 1
    ensures |keys| <= SampleCap ==> r == keys
    ensures |keys| > SampleCap ==> |r| == SampleCap + 1 && r[..SampleCap] == keys[..SampleCap] && r[SampleCap] == Ellipsis
  {
    if |keys| > SampleCap then keys[..SampleCap] + [Ellipsis] else keys
  }

  /** A capped sample is cut the same way again. */
  lemma CapSampleIdempotent(keys: seq<string>)
    ensures CapSample(CapSample(keys)) == CapSample(keys)
  {
    var r := CapSample(keys);
    if |keys| > SampleCap {
      assert r[..SampleCap] + [Ellipsis] == r;
    }
  }

  // ---------------------------------------------------------------------
  // runQueriesParallel

  type Rows = seq<map<string, Value>>

  /** The root `queryOutput`. */
  datatype LegacyOutput = LegacyOutput(query: LegacyQuery, rows: Rows, count: int, error: string)

  const ZeroQuery: LegacyQuery := LegacyQuery("", "", "", "", [], "", "", "")
  const ZeroOutput: LegacyOutput := LegacyOutput(ZeroQuery, [], 0, "")

  /** What a worker stores for query `q` after its retry loop ended with `outcome`. */
  function OutputOf(q: LegacyQuery, outcome: Attempt<Rows>, message: Error -> string): (o: LegacyOutput)
    ensures o.query == q
    ensures o.count == |o.rows|
    ensures outcome.Err? ==> o.rows == [] && o.error == message(outcome.error)
    ensures outcome.Ok? ==> o.rows == outcome.value && o.error == ""
  {
    match outcome
    case Err(e) => LegacyOutput(q, [], 0, message(e))
    case Ok(rows) => LegacyOutput(q, rows, |rows|, "")
  }

  /**
   * `runQueriesParallel`, without the goroutines: a negative worker count
   * panics in `WaitGroup.Add` (no result); zero workers return the zero
   * slice at once; otherwise slot `i` holds query `i`'s outcome. `envOf(i)`
   * is the world query `i`'s attempts meet; `message` stands for `Error()`.
   */
  function RunQueriesParallel(qs: seq<LegacyQuery>, parallel: int, retries: int,
                              envOf: nat -> Env<Rows>, message: Error -> string)
    : (r: Option<seq<LegacyOutput>>)
    ensures r.None? <==> parallel < 0
    ensures r.Some? ==> |r.value| == |qs|
    ensures parallel == 0 ==> forall i :: 0 <= i < |qs| ==> r.value[i] == ZeroOutput
    ensures parallel > 0 ==> forall i :: 0 <= i < |qs| ==>
              r.value[i] == OutputOf(qs[i], RunCypherWithRetries(envOf(i), retries, []).result, message)
  {
    if parallel < 0 then None
    else if parallel == 0 then Some(seq(|qs|, _ => ZeroOutput))
    else Some(seq(|qs|, i requires 0 <= i < |qs| =>
                OutputOf(qs[i], RunCypherWithRetries(envOf(i), retries, []).result, message)))
  }

  /**
   * Slot `i` belongs to query `i`, with an error text and no rows on
   * failure, or rows and their count on success, whatever the positive
   * worker count.
   */
  lemma SlotsBelongToQueries(qs: seq<LegacyQuery>, parallel: int, retries: int,
                             envOf: nat -> Env<Rows>, message: Error -> string, i: nat)
    requires parallel > 0 && i < |qs|
    requires forall e :: message(e) != ""
    ensures var o := RunQueriesParallel(qs, parallel, retries, envOf, message).value[i];
            && o.query == qs[i]
            && (o.error != "" <==> RunCypherWithRetries(envOf(i), retries, []).result.Err?)
            && (o.error != "" ==> o.rows == [])
            && o.count == |o.rows|
    ensures RunQueriesParallel(qs, parallel, retries, envOf, message) == RunQueriesParallel(qs, 1, retries, envOf, message)
  {
  }
}
