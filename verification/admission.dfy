/**
 * The schema admission check of internal/schema/skip.go: the inventory of
 * label and relationship-type names becomes two lower-cased presence sets, and
 * a query is runnable only if every `:ident` token and every `[:ident` token
 * of its text names a present label or relationship type respectively.
 */
module Admission {
  import opened Ascii
  import opened Search

  /** The backend inventory: label names and relationship-type names as listed. */
  datatype Summary = Summary(labels: seq<string>, rels: seq<string>)

  /** The presence index built once per run. */
  datatype Presence = Presence(labels: set<string>, rels: set<string>)

  /** Whether the run may go ahead, and why not. */
  datatype Verdict = Verdict(runnable: bool, reason: string)

  const LabelPrefix: string := ":"
  const RelPrefix: string := "[:"

  /** `PresenceFromSummary`: each inventory name, lower-cased, in its set. */
  function PresenceFromSummary(s: Summary): (p: Presence)
    ensures forall x :: x in p.labels ==> IsLowerCase(x)
    ensures forall x :: x in p.rels ==> IsLowerCase(x)
    ensures forall l :: l in s.labels ==> Lower(l) in p.labels
    ensures forall r :: r in s.rels ==> Lower(r) in p.rels
    ensures forall x :: x in p.labels ==> exists l :: l in s.labels && Lower(l) == x
    ensures forall x :: x in p.rels ==> exists r :: r in s.rels && Lower(r) == x
  {
    Presence(set l | l in s.labels :: Lower(l), set r | r in s.rels :: Lower(r))
  }

  /**
   * Lookups in the presence index ignore case on both sides: a token is found
   * exactly when some inventory label spells the same name in any case.
   */
  lemma PresenceLookupIgnoresCase(s: Summary, name: string)
    ensures Lower(name) in PresenceFromSummary(s).labels <==> exists l :: l in s.labels && EqualFold(l, name)
    ensures Lower(name) in PresenceFromSummary(s).rels <==> exists r :: r in s.rels && EqualFold(r, name)
  {
  }

  /** End of the maximal `[A-Za-z0-9_]` run that starts at `j`. */
  function IdentEnd(s: string, j: nat): (e: nat)
    requires j <= |s|
    ensures j <= e <= |s|
    ensures forall k :: j <= k < e ==> IsIdentChar(s[k])
    ensures e == |s| || !IsIdentChar(s[e])
    decreases |s| - j
  {
    if j < |s| && IsIdentChar(s[j]) then IdentEnd(s, j + 1) else j
  }

  /** The regex `prefix([A-Za-z0-9_]+)` matches at `p`. */
  predicate MatchAt(s: string, prefix: string, p: nat) {
    OccursAt(s, prefix, p) && p + |prefix| < |s| && IsIdentChar(s[p + |prefix|])
  }

  /** `t` is the submatch of a match of `prefix([A-Za-z0-9_]+)` at `p`. */
  predicate TokenAt(s: string, prefix: string, p: nat, t: string) {
    MatchAt(s, prefix, p) && t == s[p + |prefix|..IdentEnd(s, p + |prefix|)]
  }

  /**
   * `FindAllStringSubmatch` for the pattern `prefix([A-Za-z0-9_]+)`, from
   * position `i`: the leftmost match, its maximal identifier run, and the
   * next search resuming where that match ended.
   */
  function Scan(s: string, prefix: string, i: nat): (r: seq<string>)
    requires i <= |s|
    decreases |s| - i
  {
    if i == |s| then []
    else if MatchAt(s, prefix, i) then
      var e := IdentEnd(s, i + |prefix|);
      [s[i + |prefix|..e]] + Scan(s, prefix, e)
    else Scan(s, prefix, i + 1)
  }

  /** Soundness of the scan: every token is the submatch of a match at or after `i`, a non-empty identifier. */
  lemma {:induction false} ScanSound(s: string, prefix: string, i: nat)
    requires i <= |s|
    ensures forall t :: t in Scan(s, prefix, i) ==> exists p: nat :: i <= p && TokenAt(s, prefix, p, t)
    ensures forall t :: t in Scan(s, prefix, i) ==> |t| > 0 && forall k :: 0 <= k < |t| ==> IsIdentChar(t[k])
    decreases |s| - i
  {
    if i < |s| {
      if MatchAt(s, prefix, i) {
        var e := IdentEnd(s, i + |prefix|);
        ScanSound(s, prefix, e);
        assert TokenAt(s, prefix, i, s[i + |prefix|..e]);
      } else {
        ScanSound(s, prefix, i + 1);
      }
    }
  }

  /** The `:ident` tokens (`reLabel`) of a query text, left to right. */
  function LabelTokens(s: string): seq<string> {
    Scan(s, LabelPrefix, 0)
  }

  /** The `[:ident` tokens (`reRel`) of a query text, left to right. */
  function RelTokens(s: string): seq<string> {
    Scan(s, RelPrefix, 0)
  }

  /** A match at `i` contributes its token, and the scan resumes after it. */
  lemma ScanMatchStep(s: string, prefix: string, i: nat)
    requires i < |s| && MatchAt(s, prefix, i)
    ensures Scan(s, prefix, i) == [s[i + |prefix|..IdentEnd(s, i + |prefix|)]] + Scan(s, prefix, IdentEnd(s, i + |prefix|))
  {
  }

  /** No match anywhere in `[i, j)`: the scan from `i` is the scan from `j`. */
  lemma {:induction false} ScanSkip(s: string, prefix: string, i: nat, j: nat)
    requires i <= j <= |s|
    requires forall q :: i <= q < j ==> !MatchAt(s, prefix, q)
    ensures Scan(s, prefix, i) == Scan(s, prefix, j)
    decreases j - i
  {
    if i < j {
      ScanSkip(s, prefix, i + 1, j);
    }
  }

  lemma {:induction false} IdentEndBefore(s: string, j: nat, p: nat)
    requires j <= p < |s| && !IsIdentChar(s[p])
    ensures IdentEnd(s, j) <= p
    decreases p - j
  {
    if IsIdentChar(s[j]) {
      IdentEndBefore(s, j + 1, p);
    }
  }

  /**
   * Completeness of the scan: a match at `p` whose start no earlier match can
   * swallow yields its token. (The prefix contains no identifier character, so
   * an earlier match ends at or before `p`.)
   */
  lemma {:induction false} ScanComplete(s: string, prefix: string, i: nat, p: nat)
    requires |prefix| > 0 && forall k :: 0 <= k < |prefix| ==> !IsIdentChar(prefix[k])
    requires i <= p <= |s| && MatchAt(s, prefix, p)
    requires forall q :: i <= q < p && OccursAt(s, prefix, q) ==> q + |prefix| <= p
    ensures s[p + |prefix|..IdentEnd(s, p + |prefix|)] in Scan(s, prefix, i)
    decreases |s| - i
  {
    if i < p {
      if MatchAt(s, prefix, i) {
        EarlierMatchEnds(s, prefix, i, p);
        ScanComplete(s, prefix, IdentEnd(s, i + |prefix|), p);
        ScanMatchStep(s, prefix, i);
      } else {
        ScanComplete(s, prefix, i + 1, p);
        ScanSkip(s, prefix, i, i + 1);
      }
    } else {
      ScanMatchStep(s, prefix, p);
    }
  }

  /** A match before `p` that cannot swallow `p` ends its identifier run at or before `p`. */
  lemma EarlierMatchEnds(s: string, prefix: string, i: nat, p: nat)
    requires |prefix| > 0 && forall k :: 0 <= k < |prefix| ==> !IsIdentChar(prefix[k])
    requires i < p <= |s| && MatchAt(s, prefix, p) && MatchAt(s, prefix, i)
    requires forall q :: i <= q < p && OccursAt(s, prefix, q) ==> q + |prefix| <= p
    ensures i + |prefix| <= IdentEnd(s, i + |prefix|) <= p
  {
    assert i + |prefix| <= p;
    assert s[p] == s[p..p + |prefix|][0] == prefix[0];
    IdentEndBefore(s, i + |prefix|, p);
  }

  /** Every colon followed by an identifier character starts a label token. */
  lemma LabelTokenComplete(s: string, p: nat)
    requires p + 1 < |s| && s[p] == ':' && IsIdentChar(s[p + 1])
    ensures s[p + 1..IdentEnd(s, p + 1)] in LabelTokens(s)
  {
    assert MatchAt(s, LabelPrefix, p);
    ScanComplete(s, LabelPrefix, 0, p);
  }

  /** Every `[:` followed by an identifier character starts a relationship token. */
  lemma RelTokenComplete(s: string, p: nat)
    requires p + 2 < |s| && s[p] == '[' && s[p + 1] == ':' && IsIdentChar(s[p + 2])
    ensures s[p + 2..IdentEnd(s, p + 2)] in RelTokens(s)
  {
    assert MatchAt(s, RelPrefix, p);
    forall q | 0 <= q < p && OccursAt(s, RelPrefix, q)
      ensures q + 2 <= p
    {
      assert s[q + 1] == ':';
    }
    ScanComplete(s, RelPrefix, 0, p);
  }

  /**
   * The bare-colon label pattern also fires inside every relationship
   * pattern: each `[:X` token is a label token as well.
   */
  lemma RelTokensAreLabelTokens(s: string)
    ensures forall t :: t in RelTokens(s) ==> t in LabelTokens(s)
  {
    ScanSound(s, RelPrefix, 0);
    forall t | t in RelTokens(s)
      ensures t in LabelTokens(s)
    {
      var p: nat :| TokenAt(s, RelPrefix, p, t);
      assert s[p + 1] == s[p..p + 2][1] == ':';
      LabelTokenComplete(s, p + 1);
    }
  }

  /** A text lacking one character of the prefix has no match at all. */
  lemma NoMatchWithoutChar(s: string, prefix: string, m: nat)
    requires m < |prefix|
    requires forall q :: 0 <= q < |s| ==> s[q] != prefix[m]
    ensures forall q :: 0 <= q < |s| ==> !MatchAt(s, prefix, q)
  {
    forall q | 0 <= q < |s|
      ensures !MatchAt(s, prefix, q)
    {
      if q + |prefix| <= |s| {
        assert s[q..q + |prefix|][m] != prefix[m];
      }
    }
  }

  /** A text without a colon has no tokens of either kind. */
  lemma NoColonNoTokens(s: string)
    requires forall k :: 0 <= k < |s| ==> s[k] != ':'
    ensures LabelTokens(s) == [] && RelTokens(s) == []
  {
    NoMatchWithoutChar(s, LabelPrefix, 0);
    ScanSkip(s, LabelPrefix, 0, |s|);
    NoMatchWithoutChar(s, RelPrefix, 1);
    ScanSkip(s, RelPrefix, 0, |s|);
  }

  /**
   * The position of the first token whose lower-cased name is not known, or
   * -1; empty names are passed over as the `== ""` guards do.
   */
  function FirstMissing(tokens: seq<string>, known: set<string>): (k: int)
    ensures -1 <= k < |tokens|
    ensures k >= 0 ==> Lower(tokens[k]) != [] && Lower(tokens[k]) !in known
    ensures forall j :: 0 <= j < |tokens| && (k == -1 || j < k) ==> Lower(tokens[j]) == [] || Lower(tokens[j]) in known
  {
    if |tokens| == 0 then -1
    else if Lower(tokens[0]) != [] && Lower(tokens[0]) !in known then 0
    else
      var k := FirstMissing(tokens[1..], known);
      if k < 0 then -1 else k + 1
  }

  /** Every token of the text names something present, case-insensitively. */
  predicate AllPresent(tokens: seq<string>, known: set<string>) {
    forall t :: t in tokens ==> Lower(t) in known
  }

  /**
   * `CanRunCypher`: all label tokens are checked, in textual order, before any
   * relationship token; the first absent one becomes the reason, in its
   * original spelling.
   */
  function CanRunCypher(cypher: string, p: Presence): (v: Verdict)
    ensures v.runnable <==> v.reason == []
    ensures v.runnable <==> AllPresent(LabelTokens(cypher), p.labels) && AllPresent(RelTokens(cypher), p.rels)
    ensures !AllPresent(LabelTokens(cypher), p.labels) ==> HasPrefix(v.reason, "missing label: ")
    ensures AllPresent(LabelTokens(cypher), p.labels) && !v.runnable ==> HasPrefix(v.reason, "missing relationship type: ")
  {
    var labels := LabelTokens(cypher);
    var k := FirstMissing(labels, p.labels);
    MissingIffNotAll(cypher, LabelPrefix, p.labels);
    MissingIffNotAll(cypher, RelPrefix, p.rels);
    if k >= 0 then
      Verdict(false, "missing label: " + labels[k])
    else
      var rels := RelTokens(cypher);
      var m := FirstMissing(rels, p.rels);
      if m >= 0 then
        Verdict(false, "missing relationship type: " + rels[m])
      else
        Verdict(true, "")
  }

  /** Scanned tokens are never empty, so some token is absent exactly when `FirstMissing` finds one. */
  lemma MissingIffNotAll(s: string, prefix: string, known: set<string>)
    ensures FirstMissing(Scan(s, prefix, 0), known) >= 0 <==> !AllPresent(Scan(s, prefix, 0), known)
  {
    var tokens := Scan(s, prefix, 0);
    ScanSound(s, prefix, 0);
    var k := FirstMissing(tokens, known);
    if k >= 0 {
      assert tokens[k] in tokens;
    } else {
      forall t | t in tokens ensures Lower(t) in known {
        var j :| 0 <= j < |tokens| && tokens[j] == t;
        assert |Lower(t)| == |t| > 0;
      }
    }
  }

  /** The reason names the first absent label token, whatever follows it. */
  lemma LabelReasonIsFirstAbsent(cypher: string, p: Presence, k: nat)
    requires k < |LabelTokens(cypher)|
    requires Lower(LabelTokens(cypher)[k]) !in p.labels
    requires forall j :: 0 <= j < k ==> Lower(LabelTokens(cypher)[j]) in p.labels
    ensures CanRunCypher(cypher, p) == Verdict(false, "missing label: " + LabelTokens(cypher)[k])
  {
    var labels := LabelTokens(cypher);
    ScanSound(cypher, LabelPrefix, 0);
    assert labels[k] in labels;
    var f := FirstMissing(labels, p.labels);
    assert f == k;
  }

  /**
   * A relationship token becomes the reason only once every label token is
   * present, and then it is the first absent `[:X` token.
   */
  lemma RelReasonIsFirstAbsent(cypher: string, p: Presence, k: nat)
    requires AllPresent(LabelTokens(cypher), p.labels)
    requires k < |RelTokens(cypher)|
    requires Lower(RelTokens(cypher)[k]) !in p.rels
    requires forall j :: 0 <= j < k ==> Lower(RelTokens(cypher)[j]) in p.rels
    ensures CanRunCypher(cypher, p) == Verdict(false, "missing relationship type: " + RelTokens(cypher)[k])
  {
    var labels := LabelTokens(cypher);
    var rels := RelTokens(cypher);
    ScanSound(cypher, LabelPrefix, 0);
    ScanSound(cypher, RelPrefix, 0);
    assert rels[k] in rels;
    assert forall j :: 0 <= j < |labels| ==> Lower(labels[j]) in p.labels;
    assert FirstMissing(labels, p.labels) == -1;
    assert FirstMissing(rels, p.rels) == k;
  }

  /** A text with no colon at all is always runnable. */
  lemma NoColonIsRunnable(cypher: string, p: Presence)
    requires forall k :: 0 <= k < |cypher| ==> cypher[k] != ':'
    ensures CanRunCypher(cypher, p) == Verdict(true, "")
  {
    NoColonNoTokens(cypher);
  }

  /** Enlarging the presence index never turns a runnable query into a skipped one. */
  lemma AdmissionMonotone(cypher: string, p: Presence, q: Presence)
    requires p.labels <= q.labels && p.rels <= q.rels
    requires CanRunCypher(cypher, p).runnable
    ensures CanRunCypher(cypher, q) == Verdict(true, "")
  {
  }

  /** Extracted tokens are never empty, so the `== ""` guards never fire. */
  lemma TokensNeverEmpty(cypher: string)
    ensures forall t :: t in LabelTokens(cypher) ==> Lower(t) != []
    ensures forall t :: t in RelTokens(cypher) ==> Lower(t) != []
  {
    ScanSound(cypher, LabelPrefix, 0);
    ScanSound(cypher, RelPrefix, 0);
  }

  /** A position not holding the prefix's first character starts no match. */
  lemma NoMatchWithoutPrefixChar(s: string, prefix: string, i: nat, j: nat)
    requires |prefix| > 0 && j <= |s|
    requires forall q :: i <= q < j ==> s[q] != prefix[0]
    ensures forall q :: i <= q < j ==> !MatchAt(s, prefix, q)
  {
    forall q | i <= q < j
      ensures !MatchAt(s, prefix, q)
    {
      if q + |prefix| <= |s| {
        assert s[q..q + |prefix|][0] != prefix[0];
      }
    }
  }

  lemma MatchAtChars(s: string, prefix: string, p: nat)
    requires p + |prefix| < |s|
    requires forall k :: 0 <= k < |prefix| ==> s[p + k] == prefix[k]
    requires IsIdentChar(s[p + |prefix|])
    ensures MatchAt(s, prefix, p)
  {
    assert s[p..p + |prefix|] == prefix;
  }

  lemma IdentEndAt(s: string, j: nat, e: nat)
    requires j <= e <= |s|
    requires forall k :: j <= k < e ==> IsIdentChar(s[k])
    requires e == |s| || !IsIdentChar(s[e])
    ensures IdentEnd(s, j) == e
    decreases e - j
  {
    if j < e {
      IdentEndAt(s, j + 1, e);
    }
  }

  /**
   * The scan from `i` meets its next match at `p`, whose identifier run ends
   * at `e`: it yields that token and resumes at `e`.
   */
  lemma ScanSegment(s: string, prefix: string, i: nat, p: nat, e: nat)
    requires |prefix| > 0 && i <= p && p + |prefix| < e <= |s|
    requires forall q :: i <= q < p ==> s[q] != prefix[0]
    requires forall k :: 0 <= k < |prefix| ==> s[p + k] == prefix[k]
    requires forall k :: p + |prefix| <= k < e ==> IsIdentChar(s[k])
    requires e == |s| || !IsIdentChar(s[e])
    ensures Scan(s, prefix, i) == [s[p + |prefix|..e]] + Scan(s, prefix, e)
  {
    NoMatchWithoutPrefixChar(s, prefix, i, p);
    ScanSkip(s, prefix, i, p);
    ScanTokenAt(s, prefix, p, e);
  }

  /** A prefix at `p` followed by the identifier run `s[p + |prefix|..e]` yields that run as the next token. */
  lemma ScanTokenAt(s: string, prefix: string, p: nat, e: nat)
    requires |prefix| > 0 && p + |prefix| < e <= |s|
    requires forall k :: 0 <= k < |prefix| ==> s[p + k] == prefix[k]
    requires forall k :: p + |prefix| <= k < e ==> IsIdentChar(s[k])
    requires e == |s| || !IsIdentChar(s[e])
    ensures Scan(s, prefix, p) == [s[p + |prefix|..e]] + Scan(s, prefix, e)
  {
    MatchAtChars(s, prefix, p);
    IdentEndAt(s, p + |prefix|, e);
    ScanMatchStep(s, prefix, p);
  }

  /** With the prefix's first character absent from `s[i..]`, the scan ends. */
  lemma ScanRest(s: string, prefix: string, i: nat)
    requires |prefix| > 0 && i <= |s|
    requires forall q :: i <= q < |s| ==> s[q] != prefix[0]
    ensures Scan(s, prefix, i) == []
  {
    NoMatchWithoutPrefixChar(s, prefix, i, |s|);
    ScanSkip(s, prefix, i, |s|);
  }
}
