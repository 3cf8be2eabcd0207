/**
 * The display modes of internal/queries/display.go: the user tab can show
 * user principal names, and the computer tabs can show host names, FQDNs
 * or both.
 */
module Display {
  import opened Ascii
  import opened Search
  import opened Catalog

  const UsersId: string := "ad-all-users-samaccountname"
  const ComputersId: string := "ad-all-computers-fqdn"

  /** The queries whose computer column may gain a host-name column. */
  predicate IsComputerColumnQuery(id: string) {
    || id == "ad-domain-controllers"
    || id == "ad-domain-admin-sessions-non-dc"
    || id == "ad-domain-users-local-admin"
    || id == "ad-unconstrained-delegation-non-dc"
    || id == "ad-computers-unconstrained-delegation"
  }

  /** The queries `ApplyDisplayModes` may rewrite. */
  predicate IsHandled(id: string) {
    id == UsersId || id == ComputersId || IsComputerColumnQuery(id)
  }

  const UpnCypher: string :=
    "MATCH (u:User)\nWHERE u.userprincipalname IS NOT NULL OR u.name IS NOT NULL\nRETURN coalesce(u.userprincipalname, u.name) AS upn\nORDER BY upn"

  const HostnameCypher: string :=
    "MATCH (c:Computer)\nWITH c, split(c.name,'.') AS parts\nRETURN parts[0] AS hostname\nORDER BY hostname"

  const BothCypher: string :=
    "MATCH (c:Computer)\nWITH c, split(c.name,'.') AS parts\nRETURN parts[0] AS hostname, c.name AS fqdn\nORDER BY fqdn"

  const ReturnPrefix: string := "RETURN "
  const ReturnWithHostname: string := "RETURN split(computer,'.')[0] AS hostname, "

  /** Some header already reads `hostname`, ignoring case and surrounding space. */
  predicate HasHostnameHeader(headers: seq<string>) {
    exists i :: 0 <= i < |headers| && EqualFold(TrimSpace(headers[i]), "hostname")
  }

  /** A line the rewrite treats as the `RETURN` clause: upper-cased and trimmed, it starts with `RETURN `. */
  predicate IsReturnLine(line: string) {
    HasPrefix(TrimSpace(Upper(line)), ReturnPrefix)
  }

  /** The position of the first `RETURN` line, or -1. */
  function FirstReturnLine(lines: seq<string>): (r: int)
    ensures r == -1 || (0 <= r < |lines| && IsReturnLine(lines[r]))
    ensures forall j :: 0 <= j < |lines| && (r == -1 || j < r) ==> !IsReturnLine(lines[j])
  {
    FirstWhere(lines, IsReturnLine)
  }

  /** The position of the first line satisfying `p`, or -1. */
  function FirstWhere(lines: seq<string>, p: string -> bool): (r: int)
    ensures r == -1 || (0 <= r < |lines| && p(lines[r]))
    ensures forall j :: 0 <= j < |lines| && (r == -1 || j < r) ==> !p(lines[j])
  {
    if |lines| == 0 then -1
    else if p(lines[0]) then 0
    else
      var k := FirstWhere(lines[1..], p);
      assert forall j :: 1 <= j < |lines| ==> lines[j] == lines[1..][j - 1];
      if k < 0 then -1 else k + 1
  }

  /** The one-line rewrite of the `RETURN` clause: the first `RETURN ` gains the host-name column. */
  function RewriteReturn(lines: seq<string>): (r: seq<string>)
    ensures |r| == |lines|
    ensures forall j :: 0 <= j < |lines| && j != FirstReturnLine(lines) ==> r[j] == lines[j]
    ensures FirstReturnLine(lines) >= 0 ==>
              r[FirstReturnLine(lines)] == ReplaceFirst(lines[FirstReturnLine(lines)], ReturnPrefix, ReturnWithHostname)
  {
    var i := FirstReturnLine(lines);
    if i < 0 then lines
    else lines[i := ReplaceFirst(lines[i], ReturnPrefix, ReturnWithHostname)]
  }

  /** The conditions under which `adjustComputerColumns` rewrites a query. */
  predicate AdjustsColumns(q: Query, hostMode: string) {
    hostMode == "both" && !HasHostnameHeader(q.headers) && Contains(q.cypher, " AS computer")
  }

  /**
   * `adjustComputerColumns`: in `both` mode, a query without a host-name
   * header whose Cypher returns ` AS computer` gets `hostname` as its first
   * header and a host-name expression in its first `RETURN` line, and every
   * column key is resolved again from the new headers; any other query is
   * returned as it is.
   */
  function AdjustComputerColumns(q: Query, hostMode: string): (r: Query)
    ensures !AdjustsColumns(q, hostMode) ==> r == q
    ensures AdjustsColumns(q, hostMode) ==>
              && r.headers == ["hostname"] + q.headers
              && r.cypher == JoinLines(RewriteReturn(SplitLines(q.cypher)))
              && |r.columnKeys| == |r.headers|
              && r.columnKeys[0] == "computer"
              && (forall i :: 0 <= i < |q.headers| ==> r.columnKeys[i + 1] == HeaderToKey(q.headers[i]))
              && r.(headers := q.headers, cypher := q.cypher, columnKeys := q.columnKeys) == q
  {
    if hostMode != "both" then q
    else if HasHostnameHeader(q.headers) then q
    else if Contains(q.cypher, " AS computer") then
      var lines := RewriteReturn(SplitLines(q.cypher));
      var r := WithResolvedKeys(q.(headers := ["hostname"] + q.headers, cypher := JoinLines(lines)));
      HostnameKey();
      r
    else q
  }

  lemma HostnameKey()
    ensures HeaderToKey("hostname") == "computer"
  {
    NormalOfKey("hostname");
  }

  /** Splitting the original text and joining it again changes nothing when there is no `RETURN` line. */
  lemma NoReturnLineKeepsCypher(q: Query, hostMode: string)
    requires AdjustsColumns(q, hostMode)
    requires FirstReturnLine(SplitLines(q.cypher)) == -1
    ensures AdjustComputerColumns(q, hostMode).cypher == q.cypher
  {
    JoinSplitLines(q.cypher);
  }

  /** The rewrite of one query by `ApplyDisplayModes`. */
  function DisplayQuery(q: Query, userMode: string, hostMode: string): (r: Query)
    ensures r.id == q.id
    ensures !IsHandled(q.id) ==> r == q
    ensures IsComputerColumnQuery(q.id) ==> r == AdjustComputerColumns(q, hostMode)
  {
    if q.id == UsersId then
      if userMode == "upn" then
        WithResolvedKeys(q.(sheetName := "All Users (UPN)", headers := ["upn"], cypher := UpnCypher))
      else
        WithResolvedKeys(q.(sheetName := "All Users", headers := ["samaccountname"]))
    else if q.id == ComputersId then
      if hostMode == "hostname" then
        WithResolvedKeys(q.(sheetName := "All Computers (hostname)", headers := ["hostname"], cypher := HostnameCypher))
      else if hostMode == "both" then
        WithResolvedKeys(q.(sheetName := "All Computers", headers := ["hostname", "fqdn"], cypher := BothCypher))
      else
        WithResolvedKeys(q)
    else if IsComputerColumnQuery(q.id) then AdjustComputerColumns(q, hostMode)
    else q
  }

  /**
   * `ApplyDisplayModes`: one query out per query in, same IDs in the same
   * order, each rewritten by its display mode.
   */
  function ApplyDisplayModes(qs: seq<Query>, userMode: string, hostMode: string): (r: seq<Query>)
    ensures |r| == |qs|
    ensures forall i :: 0 <= i < |qs| ==> r[i].id == qs[i].id
    ensures forall i :: 0 <= i < |qs| && !IsHandled(qs[i].id) ==> r[i] == qs[i]
    ensures forall i :: 0 <= i < |qs| ==> r[i] == DisplayQuery(qs[i], userMode, hostMode)
  {
    seq(|qs|, i requires 0 <= i < |qs| => DisplayQuery(qs[i], userMode, hostMode))
  }

  /** The user tab, whatever the host mode: UPN mode swaps in the UPN query; every other mode restores the default tab and keeps the Cypher. */
  lemma UserModes(q: Query, userMode: string, hostMode: string)
    requires q.id == UsersId
    ensures userMode == "upn" ==>
              var r := DisplayQuery(q, userMode, hostMode);
              r.sheetName == "All Users (UPN)" && r.headers == ["upn"] && r.cypher == UpnCypher
    ensures userMode != "upn" ==>
              var r := DisplayQuery(q, userMode, hostMode);
              r.sheetName == "All Users" && r.headers == ["samaccountname"] && r.cypher == q.cypher
  {
  }

  /** The computer tab, whatever the user mode: `hostname`, `both`, or the original headers for every other mode. */
  lemma HostModes(q: Query, userMode: string, hostMode: string)
    requires q.id == ComputersId
    ensures hostMode == "hostname" ==> DisplayQuery(q, userMode, hostMode).headers == ["hostname"]
    ensures hostMode == "both" ==> DisplayQuery(q, userMode, hostMode).headers == ["hostname", "fqdn"]
    ensures hostMode != "hostname" && hostMode != "both" ==>
              DisplayQuery(q, userMode, hostMode) == WithResolvedKeys(q)
  {
  }

  /** Every branch leaves one column key per header, provided the input had one. */
  lemma DisplayKeepsKeyCount(q: Query, userMode: string, hostMode: string)
    requires |q.columnKeys| == |q.headers|
    ensures |DisplayQuery(q, userMode, hostMode).columnKeys| == |DisplayQuery(q, userMode, hostMode).headers|
  {
  }

  /**
   * A lower-case `return` line passes the upper-cased check but is not
   * edited, because the replacement itself is case-sensitive: the header
   * is still added.
   */
  lemma LowerCaseReturnNotEdited(line: string)
    requires IsReturnLine(line) && !Contains(line, ReturnPrefix)
    ensures RewriteReturn([line]) == [line]
  {
  }
}
