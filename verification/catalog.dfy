/**
 * The query catalog's transforms (internal/queries): resolving column keys
 * from display headers, the strict category filter, and the tab order.
 */
module Catalog {
  import opened Wrappers
  import opened Ascii

  /** A catalog entry; `columnKeys` are the row keys resolved from `headers`. */
  datatype Query = Query(
    id: string,
    title: string,
    category: string,
    sheetName: string,
    headers: seq<string>,
    description: string,
    findingTitle: string,
    cypher: string,
    columnKeys: seq<string>)

  // ---------------------------------------------------------------------
  // HeaderToKey

  /** The alias switch of `HeaderToKey`, on a header already trimmed and lower-cased. */
  function Alias(h: string): Option<string> {
    if h == "hostname" || h == "computer" then Some("computer")
    else if h == "operating system" || h == "os" then Some("os")
    else if h == "user" || h == "username" then Some("user")
    else if h == "principal" then Some("principal")
    else if h == "type" then Some("type")
    else if h == "description" then Some("description")
    else if h == "group names" || h == "group_names" || h == "group" then Some("group")
    else if h == "groupname" then Some("groupname")
    else if h == "password set" || h == "password_set" then Some("pwdlastset")
    else if h == "service acct?" || h == "service_acct?" || h == "service acct" || h == "service_acct" then Some("service_acct")
    else if h == "samaccountname" then Some("samaccountname")
    else if h == "fqdn" then Some("fqdn")
    else None
  }

  /** A key as `HeaderToKey` produces them: lower-case, no blank, no white space at either end. */
  predicate IsKey(k: string) {
    && IsLowerCase(k)
    && (forall i :: 0 <= i < |k| ==> k[i] != ' ')
    && (k == [] || (!IsSpace(k[0]) && !IsSpace(k[|k| - 1])))
  }

  /** The header as the alias switch sees it. */
  function Normal(h: string): (t: string)
    ensures IsLowerCase(t)
    ensures t == [] || (!IsSpace(t[0]) && !IsSpace(t[|t| - 1]))
  {
    LowerIsLowerCase(TrimSpace(h));
    Lower(TrimSpace(h))
  }

  /**
   * `HeaderToKey`: the trimmed, lower-cased header's alias when it has one,
   * otherwise the trimmed, lower-cased header with blanks turned into `_`.
   */
  function HeaderToKey(h: string): (k: string)
    ensures IsKey(k)
    ensures Alias(Normal(h)).Some? ==> k == Alias(Normal(h)).value
    ensures Alias(Normal(h)).None? ==> |k| == |Normal(h)|
    ensures Alias(Normal(h)).None? ==> forall i :: 0 <= i < |k| ==> k[i] == (if Normal(h)[i] == ' ' then '_' else Normal(h)[i])
  {
    var t := Normal(h);
    match Alias(t)
    case Some(v) => AliasValueIsKey(t); v
    case None => ReplaceChar(t, ' ', '_')
  }

  lemma AliasValueIsKey(t: string)
    requires Alias(t).Some?
    ensures IsKey(Alias(t).value)
  {
    AliasValuesAreKeys();
  }

  lemma AliasValuesAreKeys()
    ensures IsKey("computer") && IsKey("os") && IsKey("user") && IsKey("principal")
    ensures IsKey("type") && IsKey("description") && IsKey("group") && IsKey("groupname")
    ensures IsKey("pwdlastset") && IsKey("service_acct") && IsKey("samaccountname") && IsKey("fqdn")
  {
    FirstAliasKeys();
    MiddleAliasKeys();
    LastAliasKeys();
  }

  lemma FirstAliasKeys()
    ensures IsKey("computer") && IsKey("os") && IsKey("user") && IsKey("principal")
  {
    assert IsKey("computer");
    assert IsKey("os");
    assert IsKey("user");
  }

  lemma MiddleAliasKeys()
    ensures IsKey("type") && IsKey("description") && IsKey("group") && IsKey("groupname")
  {
    assert IsKey("type");
    assert IsKey("description");
    assert IsKey("group");
  }

  lemma LastAliasKeys()
    ensures IsKey("pwdlastset") && IsKey("service_acct") && IsKey("samaccountname") && IsKey("fqdn")
  {
    assert IsKey("pwdlastset");
    assert IsKey("service_acct");
    assert IsKey("samaccountname");
  }

  /** Every alias value is a fixed point of the switch or has no alias and no blank. */
  lemma AliasValueFixed(t: string)
    requires Alias(t).Some?
    ensures var v := Alias(t).value;
            Alias(v) == Some(v) || (Alias(v).None? && ReplaceChar(v, ' ', '_') == v)
  {
    FirstAliasesFixed();
    LastAliasesFixed();
    PwdLastSetUnaliased();
  }

  lemma FirstAliasesFixed()
    ensures Alias("computer") == Some("computer") && Alias("os") == Some("os")
    ensures Alias("user") == Some("user") && Alias("principal") == Some("principal")
    ensures Alias("type") == Some("type") && Alias("description") == Some("description")
  {
  }

  lemma LastAliasesFixed()
    ensures Alias("group") == Some("group") && Alias("groupname") == Some("groupname")
    ensures Alias("service_acct") == Some("service_acct")
    ensures Alias("samaccountname") == Some("samaccountname") && Alias("fqdn") == Some("fqdn")
  {
    GroupAliasesFixed();
    ServiceAliasFixed();
    AccountAliasesFixed();
  }

  lemma GroupAliasesFixed()
    ensures Alias("group") == Some("group") && Alias("groupname") == Some("groupname")
  {
  }

  lemma ServiceAliasFixed()
    ensures Alias("service_acct") == Some("service_acct")
  {
  }

  lemma AccountAliasesFixed()
    ensures Alias("samaccountname") == Some("samaccountname") && Alias("fqdn") == Some("fqdn")
  {
  }

  /** `pwdlastset` is the one alias value that is not itself a spelling the switch knows. */
  lemma PwdLastSetUnaliased()
    ensures Alias("pwdlastset").None? && ReplaceChar("pwdlastset", ' ', '_') == "pwdlastset"
  {
  }

  /** A lower-case, trimmed header is its own normal form. */
  lemma NormalOfKey(k: string)
    requires IsLowerCase(k) && (k == [] || (!IsSpace(k[0]) && !IsSpace(k[|k| - 1])))
    ensures Normal(k) == k
  {
    TrimSpaceOfTrimmed(k);
    LowerOfLowerCase(k);
  }

  /** Blank-to-underscore only changes blanks; a result without `_` came from itself. */
  lemma ReplaceBlankVariants(t: string, k: string, p: int)
    requires ReplaceChar(t, ' ', '_') == k
    requires forall i :: 0 <= i < |k| && i != p ==> k[i] != '_'
    ensures t == k || (0 <= p < |k| && t == k[..p] + " " + k[p + 1..])
  {
    if t != k {
      assert 0 <= p < |k| && t[p] == ' ' by {
        var i :| 0 <= i < |t| && t[i] != k[i];
      }
      assert t == k[..p] + " " + k[p + 1..];
    }
  }

  /** A header without blanks is none of the alias spellings that have one. */
  lemma BlankFreeNotSpaced(k: string)
    requires forall i :: 0 <= i < |k| ==> k[i] != ' '
    ensures k != "operating system" && k != "group names" && k != "password set"
    ensures k != "service acct?" && k != "service acct"
  {
    assert "operating system"[9] == ' ';
    assert "group names"[5] == ' ';
    assert "password set"[8] == ' ';
    assert "service acct?"[7] == ' ';
    assert "service acct"[7] == ' ';
  }

  lemma HostnameFrom(t: string)
    requires ReplaceChar(t, ' ', '_') == "hostname"
    ensures t == "hostname"
  {
    ReplaceBlankVariants(t, "hostname", -1);
  }

  lemma UsernameFrom(t: string)
    requires ReplaceChar(t, ' ', '_') == "username"
    ensures t == "username"
  {
    ReplaceBlankVariants(t, "username", -1);
  }

  lemma GroupNamesFrom(t: string)
    requires ReplaceChar(t, ' ', '_') == "group_names"
    ensures t == "group_names" || t == "group names"
  {
    var k := "group_names";
    ReplaceBlankVariants(t, k, 5);
    assert k[..5] + " " + k[6..] == "group names";
  }

  lemma PasswordSetFrom(t: string)
    requires ReplaceChar(t, ' ', '_') == "password_set"
    ensures t == "password_set" || t == "password set"
  {
    var k := "password_set";
    ReplaceBlankVariants(t, k, 8);
    assert k[..8] + " " + k[9..] == "password set";
  }

  lemma ServiceAcctFrom(t: string)
    requires ReplaceChar(t, ' ', '_') == "service_acct?"
    ensures t == "service_acct?" || t == "service acct?"
  {
    var k := "service_acct?";
    ReplaceBlankVariants(t, k, 7);
    assert k[..7] + " " + k[8..] == "service acct?";
  }

  /**
   * The default branch never produces a header that the switch would map
   * elsewhere: the blank-free spellings of the aliases are aliases too.
   */
  lemma DefaultNotRemapped(t: string)
    requires Alias(t).None?
    ensures var k := ReplaceChar(t, ' ', '_');
            Alias(k).None? || Alias(k) == Some(k)
  {
    var k := ReplaceChar(t, ' ', '_');
    BlankFreeNotSpaced(k);
    if k == "hostname" {
      HostnameFrom(t);
    } else if k == "username" {
      UsernameFrom(t);
    } else if k == "group_names" {
      GroupNamesFrom(t);
    } else if k == "password_set" {
      PasswordSetFrom(t);
    } else if k == "service_acct?" {
      ServiceAcctFrom(t);
    }
  }

  /** `HeaderToKey` is idempotent: a key maps to itself. */
  lemma HeaderToKeyIdempotent(h: string)
    ensures HeaderToKey(HeaderToKey(h)) == HeaderToKey(h)
  {
    var k := HeaderToKey(h);
    NormalOfKey(k);
    var t := Normal(h);
    if Alias(t).Some? {
      AliasValueFixed(t);
    } else {
      DefaultNotRemapped(t);
    }
  }

  /** Surrounding white space and the case of ASCII letters do not matter. */
  lemma HeaderToKeyNormalizes(h: string)
    ensures HeaderToKey(h) == HeaderToKey(Normal(h))
  {
    NormalOfKey(Normal(h));
  }

  lemma HostnameTrimmed()
    ensures TrimSpace("Hostname") == "Hostname"
  {
    TrimSpaceOfTrimmed("Hostname");
  }

  lemma HostnameLowered()
    ensures Lower("Hostname") == "hostname"
  {
  }

  lemma PasswordSetTrimmed()
    ensures TrimSpace(" Password Set ") == "Password Set"
  {
    PasswordSetPadded();
    TrimPadded("Password Set");
  }

  lemma PasswordSetPadded()
    ensures [' '] + "Password Set" + [' '] == " Password Set "
  {
  }

  lemma PasswordSetLowered()
    ensures Lower("Password Set") == "password set"
  {
  }

  lemma PasswordSetAlias()
    ensures Alias("password set") == Some("pwdlastset")
  {
  }

  lemma ComputerNormal()
    ensures Normal("computer") == "computer"
  {
    TrimSpaceOfTrimmed("computer");
    assert Lower("computer") == "computer";
  }

  /** `Hostname` and `computer` collapse to the key `computer`. */
  lemma HostnameIsComputer()
    ensures HeaderToKey("Hostname") == "computer" && HeaderToKey("computer") == "computer"
  {
    HostnameTrimmed();
    HostnameLowered();
    ComputerNormal();
  }

  /** Surrounding space and case are dropped before the alias switch: ` Password Set ` is `pwdlastset`. */
  lemma PasswordSetIsPwdLastSet()
    ensures HeaderToKey(" Password Set ") == "pwdlastset"
  {
    PasswordSetTrimmed();
    PasswordSetLowered();
    PasswordSetAlias();
  }

  /** `Query.WithResolvedKeys`: one key per header, in order; nothing else changes. */
  function WithResolvedKeys(q: Query): (r: Query)
    ensures |r.columnKeys| == |r.headers|
    ensures forall i :: 0 <= i < |r.headers| ==> r.columnKeys[i] == HeaderToKey(r.headers[i])
    ensures r.(columnKeys := q.columnKeys) == q
  {
    q.(columnKeys := seq(|q.headers|, i requires 0 <= i < |q.headers| => HeaderToKey(q.headers[i])))
  }

  /** Resolving keys twice is resolving them once, and resolved keys resolve to themselves. */
  lemma WithResolvedKeysIdempotent(q: Query)
    ensures WithResolvedKeys(WithResolvedKeys(q)) == WithResolvedKeys(q)
    ensures forall i :: 0 <= i < |q.headers| ==>
              HeaderToKey(WithResolvedKeys(q).columnKeys[i]) == WithResolvedKeys(q).columnKeys[i]
  {
    forall i | 0 <= i < |q.headers|
      ensures HeaderToKey(WithResolvedKeys(q).columnKeys[i]) == WithResolvedKeys(q).columnKeys[i]
    {
      HeaderToKeyIdempotent(q.headers[i]);
    }
  }

  // ---------------------------------------------------------------------
  // FilterCategoryStrict

  /** The error of `FilterCategoryStrict`, naming the rejected (trimmed) category. */
  datatype CategoryError = InvalidCategory(category: string)

  /** The category flag means "everything": blank or `all` in any case. */
  predicate MeansAll(category: string) {
    var c := TrimSpace(category);
    c == [] || EqualFold(c, "all")
  }

  predicate IsKnownCategory(category: string) {
    Lower(TrimSpace(category)) in {"ad", "entraid", "info"}
  }

  /** The queries of `qs` whose category equals `c` ignoring case, in their order. */
  function SelectCategory(qs: seq<Query>, c: string): (r: seq<Query>)
    ensures |r| <= |qs|
    ensures forall i :: 0 <= i < |r| ==> r[i] in qs && EqualFold(r[i].category, c)
    ensures forall i :: 0 <= i < |qs| && EqualFold(qs[i].category, c) ==> qs[i] in r
  {
    if |qs| == 0 then []
    else
      var rest := SelectCategory(qs[1..], c);
      assert forall i :: 1 <= i < |qs| ==> qs[i] == qs[1..][i - 1];
      if EqualFold(qs[0].category, c) then [qs[0]] + rest else rest
  }

  /** Selection distributes over concatenation, so it keeps the input order. */
  lemma {:induction false} SelectCategoryConcat(a: seq<Query>, b: seq<Query>, c: string)
    ensures SelectCategory(a + b, c) == SelectCategory(a, c) + SelectCategory(b, c)
  {
    if |a| > 0 {
      assert (a + b)[1..] == a[1..] + b;
      SelectCategoryConcat(a[1..], b, c);
    } else {
      assert a + b == b;
    }
  }

  /**
   * `FilterCategoryStrict`: the input unchanged for "all", an error for an
   * unknown category, and otherwise the queries of that category in order.
   */
  function FilterCategoryStrict(qs: seq<Query>, category: string): (r: Result<seq<Query>, CategoryError>)
    ensures MeansAll(category) ==> r == Success(qs)
    ensures r.Failure? <==> !MeansAll(category) && !IsKnownCategory(category)
    ensures r.Failure? ==> r.error == InvalidCategory(TrimSpace(category))
    ensures r.Success? && !MeansAll(category) ==>
              forall q :: q in r.value <==> q in qs && EqualFold(q.category, TrimSpace(category))
  {
    var c := TrimSpace(category);
    if c == [] || EqualFold(c, "all") then Success(qs)
    else if Lower(c) !in {"ad", "entraid", "info"} then Failure(InvalidCategory(c))
    else Success(SelectCategory(qs, c))
  }

  /** A known category keeps exactly its own queries: filtering again changes nothing. */
  lemma FilterCategoryIdempotent(qs: seq<Query>, category: string)
    requires FilterCategoryStrict(qs, category).Success?
    ensures FilterCategoryStrict(FilterCategoryStrict(qs, category).value, category) == FilterCategoryStrict(qs, category)
  {
    if !MeansAll(category) {
      SelectAll(SelectCategory(qs, TrimSpace(category)), TrimSpace(category));
    }
  }

  /** Selecting from queries that all match returns them unchanged. */
  lemma {:induction false} SelectAll(qs: seq<Query>, c: string)
    requires forall i :: 0 <= i < |qs| ==> EqualFold(qs[i].category, c)
    ensures SelectCategory(qs, c) == qs
  {
    if |qs| > 0 {
      SelectAll(qs[1..], c);
    }
  }

  // ---------------------------------------------------------------------
  // Order

  /** The `idx` map of `Order`: the four inventory tabs pinned to the front, in this order. */
  function PinnedRank(id: string): (r: Option<nat>)
    ensures r.Some? ==> 1 <= r.value <= 4
  {
    if id == "ad-all-users-samaccountname" then Some(1)
    else if id == "ad-all-computers-fqdn" then Some(2)
    else if id == "ad-domain-admins" then Some(3)
    else if id == "ad-domain-controllers" then Some(4)
    else None
  }

  /** `catRank`: AD before EntraID before INFO before anything else, ignoring case. */
  function CatRank(category: string): (r: nat)
    ensures r == 10 || r == 20 || r == 30 || r == 99
    ensures EqualFold(category, "ad") <==> r == 10
    ensures EqualFold(category, "entraid") <==> r == 20
    ensures EqualFold(category, "info") <==> r == 30
  {
    LowerOfLowerCase("ad");
    LowerOfLowerCase("entraid");
    LowerOfLowerCase("info");
    var c := Lower(category);
    if c == "ad" then 10
    else if c == "entraid" then 20
    else if c == "info" then 30
    else 99
  }

  /** The comparator `Order` hands to `sort.SliceStable`, branch for branch. */
  predicate Less(a: Query, b: Query) {
    var ia := PinnedRank(a.id);
    var ib := PinnedRank(b.id);
    if ia.Some? || ib.Some? then
      if ia.None? then false
      else if ib.None? then true
      else ia.value < ib.value
    else
      var ca := CatRank(a.category);
      var cb := CatRank(b.category);
      if ca != cb then ca < cb else false
  }

  /** The tab position class of a query: its pin, or 100 plus its category rank. */
  function Key(q: Query): nat {
    match PinnedRank(q.id)
    case Some(p) => p
    case None => 100 + CatRank(q.category)
  }

  /** The comparator is the strict order of `Key`, hence a strict weak order. */
  lemma LessIsKeyOrder(a: Query, b: Query)
    ensures Less(a, b) <==> Key(a) < Key(b)
  {
  }

  predicate SortedByKey(s: seq<Query>) {
    forall i, j :: 0 <= i < j < |s| ==> Key(s[i]) <= Key(s[j])
  }

  /** The queries of `s` in key class `k`, in their order. */
  function WithKey(s: seq<Query>, k: nat): (r: seq<Query>)
    ensures |r| <= |s|
  {
    if |s| == 0 then []
    else (if Key(s[0]) == k then [s[0]] else []) + WithKey(s[1..], k)
  }

  lemma WithKeyCons(x: Query, s: seq<Query>, k: nat)
    ensures WithKey([x] + s, k) == (if Key(x) == k then [x] else []) + WithKey(s, k)
  {
    assert ([x] + s)[1..] == s;
  }

  lemma SortedCons(h: Query, t: seq<Query>)
    requires SortedByKey(t)
    requires forall j :: 0 <= j < |t| ==> Key(h) <= Key(t[j])
    ensures SortedByKey([h] + t)
  {
  }

  /** Insertion of `x` before the first element whose key is not smaller. */
  function Insert(x: Query, s: seq<Query>): (r: seq<Query>)
    requires SortedByKey(s)
    ensures SortedByKey(r)
    ensures multiset(r) == multiset(s) + multiset{x}
  {
    if |s| == 0 then [x]
    else if Key(x) <= Key(s[0]) then
      SortedCons(x, s);
      [x] + s
    else
      var rest := Insert(x, s[1..]);
      InsertAfterHead(x, s, rest);
      [s[0]] + rest
  }

  /** Putting the head back in front of an insertion into the tail keeps the result sorted and complete. */
  lemma InsertAfterHead(x: Query, s: seq<Query>, rest: seq<Query>)
    requires SortedByKey(s) && |s| > 0 && Key(s[0]) < Key(x)
    requires SortedByKey(rest) && multiset(rest) == multiset(s[1..]) + multiset{x}
    ensures SortedByKey([s[0]] + rest)
    ensures multiset([s[0]] + rest) == multiset(s) + multiset{x}
  {
    InsertBound(x, s, rest);
    SortedCons(s[0], rest);
    assert s == [s[0]] + s[1..];
  }

  /** Everything in an insertion into the tail of `s` is no smaller than the head of `s`. */
  lemma InsertBound(x: Query, s: seq<Query>, rest: seq<Query>)
    requires SortedByKey(s) && |s| > 0 && Key(s[0]) < Key(x)
    requires multiset(rest) == multiset(s[1..]) + multiset{x}
    ensures forall j :: 0 <= j < |rest| ==> Key(s[0]) <= Key(rest[j])
  {
    forall j | 0 <= j < |rest| ensures Key(s[0]) <= Key(rest[j]) {
      assert rest[j] in multiset(rest);
      if rest[j] != x {
        assert rest[j] in s[1..];
      }
    }
  }

  /** Insertion puts `x` at the front of its key class and leaves every class otherwise as it was. */
  lemma {:induction false} InsertStable(x: Query, s: seq<Query>, k: nat)
    requires SortedByKey(s)
    ensures WithKey(Insert(x, s), k) == (if Key(x) == k then [x] else []) + WithKey(s, k)
  {
    if |s| == 0 {
    } else if Key(x) <= Key(s[0]) {
      assert Insert(x, s) == [x] + s;
      WithKeyCons(x, s, k);
    } else {
      InsertStable(x, s[1..], k);
      InsertPastHead(x, s, k);
    }
  }

  /** The inductive step of `InsertStable`, when `x` goes past the head of `s`. */
  lemma InsertPastHead(x: Query, s: seq<Query>, k: nat)
    requires SortedByKey(s) && |s| > 0 && Key(s[0]) < Key(x)
    requires WithKey(Insert(x, s[1..]), k) == (if Key(x) == k then [x] else []) + WithKey(s[1..], k)
    ensures WithKey(Insert(x, s), k) == (if Key(x) == k then [x] else []) + WithKey(s, k)
  {
    var rest := Insert(x, s[1..]);
    InsertUnfold(x, s);
    WithKeyCons(s[0], rest, k);
    WithKeyCons(s[0], s[1..], k);
    assert s == [s[0]] + s[1..];
    var h := if Key(s[0]) == k then [s[0]] else [];
    var xp := if Key(x) == k then [x] else [];
    assert h == [] || xp == [];
    SwapDisjoint(h, xp, WithKey(s[1..], k));
  }

  lemma InsertUnfold(x: Query, s: seq<Query>)
    requires SortedByKey(s) && |s| > 0 && Key(s[0]) < Key(x)
    ensures Insert(x, s) == [s[0]] + Insert(x, s[1..])
  {
  }

  /** When one of two prefixes is empty, their order does not matter. */
  lemma SwapDisjoint<T>(h: seq<T>, xp: seq<T>, w: seq<T>)
    requires h == [] || xp == []
    ensures h + (xp + w) == xp + (h + w)
  {
    if h == [] {
      assert h + (xp + w) == xp + w;
    } else {
      assert xp + (h + w) == h + w;
    }
  }

  /**
   * `Order`: a stable sort by the comparator. The result is a permutation,
   * no later query sorts before an earlier one, and within each key class
   * the input order is kept.
   */
  function Order(qs: seq<Query>): (r: seq<Query>)
    ensures multiset(r) == multiset(qs)
    ensures SortedByKey(r)
    ensures forall i, j :: 0 <= i < j < |r| ==> !Less(r[j], r[i])
    ensures forall k :: WithKey(r, k) == WithKey(qs, k)
  {
    if |qs| == 0 then []
    else
      var rest := Order(qs[1..]);
      var r := Insert(qs[0], rest);
      OrderStep(qs, rest);
      SortedNoInversion(r);
      r
  }

  /** Inserting the head into the ordered tail keeps the elements and each key's relative order. */
  lemma OrderStep(qs: seq<Query>, rest: seq<Query>)
    requires |qs| > 0 && SortedByKey(rest)
    requires multiset(rest) == multiset(qs[1..])
    requires forall k :: WithKey(rest, k) == WithKey(qs[1..], k)
    ensures multiset(Insert(qs[0], rest)) == multiset(qs)
    ensures forall k :: WithKey(Insert(qs[0], rest), k) == WithKey(qs, k)
  {
    OrderStepMultiset(qs, rest);
    forall k ensures WithKey(Insert(qs[0], rest), k) == WithKey(qs, k) {
      OrderStepKey(qs, rest, k);
    }
  }

  lemma OrderStepMultiset(qs: seq<Query>, rest: seq<Query>)
    requires |qs| > 0 && SortedByKey(rest)
    requires multiset(rest) == multiset(qs[1..])
    ensures multiset(Insert(qs[0], rest)) == multiset(qs)
  {
    assert qs == [qs[0]] + qs[1..];
  }

  lemma OrderStepKey(qs: seq<Query>, rest: seq<Query>, k: nat)
    requires |qs| > 0 && SortedByKey(rest)
    requires WithKey(rest, k) == WithKey(qs[1..], k)
    ensures WithKey(Insert(qs[0], rest), k) == WithKey(qs, k)
  {
    InsertStable(qs[0], rest, k);
    WithKeyCons(qs[0], qs[1..], k);
    assert qs == [qs[0]] + qs[1..];
  }

  /** A sequence sorted by key has no pair the comparator would swap. */
  lemma SortedNoInversion(r: seq<Query>)
    requires SortedByKey(r)
    ensures forall i, j :: 0 <= i < j < |r| ==> !Less(r[j], r[i])
  {
    forall i, j | 0 <= i < j < |r| ensures !Less(r[j], r[i]) {
      LessIsKeyOrder(r[j], r[i]);
    }
  }

  /** In a sequence sorted by key, a smaller key sits at an earlier position. */
  lemma SortedKeyPosition(s: seq<Query>, i: nat, j: nat)
    requires SortedByKey(s) && i < |s| && j < |s| && Key(s[j]) < Key(s[i])
    ensures j < i
  {
  }

  /**
   * The pinned inventory tabs come first, in the order users, computers,
   * domain admins, domain controllers; everything else follows by category.
   */
  lemma PinnedFirst(qs: seq<Query>, i: nat, j: nat)
    requires i < |Order(qs)| && j < |Order(qs)|
    requires PinnedRank(Order(qs)[j].id).Some?
    requires PinnedRank(Order(qs)[i].id).None? ||
             PinnedRank(Order(qs)[j].id).value < PinnedRank(Order(qs)[i].id).value
    ensures j < i
  {
    var r := Order(qs);
    assert Key(r[j]) < Key(r[i]);
    SortedKeyPosition(r, i, j);
  }

  /** Among unpinned queries, a lower category rank always comes first. */
  lemma CategoryRankOrder(qs: seq<Query>, i: nat, j: nat)
    requires i < |Order(qs)| && j < |Order(qs)|
    requires PinnedRank(Order(qs)[i].id).None? && PinnedRank(Order(qs)[j].id).None?
    requires CatRank(Order(qs)[j].category) < CatRank(Order(qs)[i].category)
    ensures j < i
  {
    var r := Order(qs);
    assert Key(r[j]) < Key(r[i]);
    SortedKeyPosition(r, i, j);
  }
}
