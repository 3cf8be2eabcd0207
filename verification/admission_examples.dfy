/** Character-level facts about the literal query texts used as examples. */
module AdmissionTexts {
  lemma BracketChars(s: string)
    requires s == "[a:" + "GenericAll"
    ensures s[3..|s|] == "GenericAll"
  {
  }

  lemma PropertyLabelChars(s: string)
    requires s == "(c2:" + "Computer" + " {unconstraineddelegation:" + "true" + "})"
    ensures s[4..12] == "Computer"
  {
  }

  lemma PropertyValueChars(s: string)
    requires s == "(c2:" + "Computer" + " {unconstraineddelegation:" + "true" + "})"
    ensures s[38..42] == "true"
  {
  }

  lemma TraversalChars(s: string)
    requires s == "(u:" + "User" + ")-[:" + "MemberOf" + "]->(g)"
    ensures s[3..7] == "User" && s[11..19] == "MemberOf"
  {
  }
}

/**
 * Worked query texts showing how the token regexes of the admission check
 * read real Cypher, including the quirks the check inherits from them.
 * Each fact about a literal text is split into a scanning step and a
 * character step so that the two never meet in one proof.
 */
module AdmissionExamples {
  import opened Ascii
  import opened Admission
  import AdmissionTexts

  // --- `[a:GenericAll` ----------------------------------------------------

  lemma BracketScans(s: string)
    requires s == "[a:" + "GenericAll"
    ensures Scan(s, RelPrefix, 0) == []
    ensures Scan(s, LabelPrefix, 0) == [s[3..|s|]] + Scan(s, LabelPrefix, |s|)
  {
    BracketRelScan(s);
    BracketLabelScan(s);
  }

  lemma BracketRelScan(s: string)
    requires s == "[a:" + "GenericAll"
    ensures Scan(s, RelPrefix, 0) == []
  {
    assert |RelPrefix| == 2;
    assert !MatchAt(s, RelPrefix, 0) by {
      assert s[0..2][1] != RelPrefix[1];
    }
    ScanRest(s, RelPrefix, 1);
  }

  lemma BracketLabelScan(s: string)
    requires s == "[a:" + "GenericAll"
    ensures Scan(s, LabelPrefix, 0) == [s[3..|s|]] + Scan(s, LabelPrefix, |s|)
  {
    assert |LabelPrefix| == 1 && LabelPrefix[0] == ':';
    ScanSegment(s, LabelPrefix, 0, 2, |s|);
  }

  /**
   * `[a:GenericAll` has no relationship token (the bracket must be followed
   * directly by the colon), but it does have the label token `GenericAll`.
   */
  lemma BracketWithVariableIsNotRelToken(s: string)
    requires s == "[a:" + "GenericAll"
    ensures RelTokens(s) == []
    ensures LabelTokens(s) == ["GenericAll"]
  {
    BracketScans(s);
    AdmissionTexts.BracketChars(s);
    assert Scan(s, LabelPrefix, |s|) == [];
  }

  // --- `(c2:Computer {unconstraineddelegation:true})` ---------------------

  lemma PropertyScanLabel(s: string)
    requires s == "(c2:" + "Computer" + " {unconstraineddelegation:" + "true" + "})"
    ensures Scan(s, LabelPrefix, 0) == [s[4..12]] + Scan(s, LabelPrefix, 12)
  {
    assert |LabelPrefix| == 1 && LabelPrefix[0] == ':';
    ScanSegment(s, LabelPrefix, 0, 3, 12);
  }

  lemma PropertyScanValue(s: string)
    requires s == "(c2:" + "Computer" + " {unconstraineddelegation:" + "true" + "})"
    ensures Scan(s, LabelPrefix, 12) == [s[38..42]] + Scan(s, LabelPrefix, 42)
  {
    assert |LabelPrefix| == 1 && LabelPrefix[0] == ':';
    ScanSegment(s, LabelPrefix, 12, 37, 42);
  }

  lemma PropertyScanEnd(s: string)
    requires s == "(c2:" + "Computer" + " {unconstraineddelegation:" + "true" + "})"
    ensures Scan(s, LabelPrefix, 42) == []
  {
    assert |LabelPrefix| == 1 && LabelPrefix[0] == ':';
    ScanRest(s, LabelPrefix, 42);
  }

  lemma LowerNames()
    ensures Lower("Computer") == "computer" && Lower("true") == "true"
    ensures Lower("User") == "user" && Lower("MemberOf") == "memberof"
  {
  }

  /**
   * A property map such as `{unconstraineddelegation:true}` yields the label
   * token `true`, so a query of this shape is skipped unless the inventory
   * has a label called "true".
   */
  lemma PropertyValueIsLabelToken(s: string)
    requires s == "(c2:" + "Computer" + " {unconstraineddelegation:" + "true" + "})"
    ensures LabelTokens(s) == ["Computer", "true"]
    ensures CanRunCypher(s, Presence({"computer"}, {})) == Verdict(false, "missing label: " + "true")
  {
    PropertyTokens(s);
    PropertyVerdict(s);
  }

  lemma PropertyTokens(s: string)
    requires s == "(c2:" + "Computer" + " {unconstraineddelegation:" + "true" + "})"
    ensures LabelTokens(s) == ["Computer", "true"]
  {
    PropertyScans(s);
    AdmissionTexts.PropertyLabelChars(s);
    AdmissionTexts.PropertyValueChars(s);
  }

  lemma PropertyScans(s: string)
    requires s == "(c2:" + "Computer" + " {unconstraineddelegation:" + "true" + "})"
    ensures |s| == 44 && LabelTokens(s) == [s[4..12], s[38..42]]
  {
    PropertyScanLabel(s);
    PropertyScanValue(s);
    PropertyScanEnd(s);
    TwoTokens(s, 12, 42, s[4..12], s[38..42]);
  }

  /** Two scan steps and an empty tail make a two-token list. */
  lemma TwoTokens(s: string, j: nat, k: nat, a: string, b: string)
    requires j <= k <= |s|
    requires Scan(s, LabelPrefix, 0) == [a] + Scan(s, LabelPrefix, j)
    requires Scan(s, LabelPrefix, j) == [b] + Scan(s, LabelPrefix, k)
    requires Scan(s, LabelPrefix, k) == []
    ensures LabelTokens(s) == [a, b]
  {
  }

  lemma PropertyVerdict(s: string)
    requires LabelTokens(s) == ["Computer", "true"]
    ensures CanRunCypher(s, Presence({"computer"}, {})) == Verdict(false, "missing label: " + "true")
  {
    LowerNames();
    SecondLabelMissing(s, Presence({"computer"}, {}), "Computer", "true");
  }

  /** Of two label tokens, only the second absent: it is the reason. */
  lemma SecondLabelMissing(s: string, p: Presence, a: string, b: string)
    requires LabelTokens(s) == [a, b]
    requires Lower(a) in p.labels && Lower(b) !in p.labels
    ensures CanRunCypher(s, p) == Verdict(false, "missing label: " + b)
  {
    LabelReasonIsFirstAbsent(s, p, 1);
  }

  // --- `(u:User)-[:MemberOf]->(g)` ----------------------------------------

  lemma TraversalScanLabel(s: string)
    requires s == "(u:" + "User" + ")-[:" + "MemberOf" + "]->(g)"
    ensures Scan(s, LabelPrefix, 0) == [s[3..7]] + Scan(s, LabelPrefix, 7)
  {
    assert |LabelPrefix| == 1 && LabelPrefix[0] == ':';
    ScanSegment(s, LabelPrefix, 0, 2, 7);
  }

  lemma TraversalScanRel(s: string)
    requires s == "(u:" + "User" + ")-[:" + "MemberOf" + "]->(g)"
    ensures Scan(s, LabelPrefix, 7) == [s[11..19]] + Scan(s, LabelPrefix, 19)
  {
    assert |LabelPrefix| == 1 && LabelPrefix[0] == ':';
    ScanSegment(s, LabelPrefix, 7, 10, 19);
  }

  lemma TraversalScanEnd(s: string)
    requires s == "(u:" + "User" + ")-[:" + "MemberOf" + "]->(g)"
    ensures Scan(s, LabelPrefix, 19) == []
  {
    assert |LabelPrefix| == 1 && LabelPrefix[0] == ':';
    ScanRest(s, LabelPrefix, 19);
  }

  /**
   * Because `[:MemberOf` also yields the label token `MemberOf`, a query that
   * traverses a present relationship type is skipped for a "missing label".
   */
  lemma RelationshipTypeCheckedAsLabel(s: string)
    requires s == "(u:" + "User" + ")-[:" + "MemberOf" + "]->(g)"
    ensures CanRunCypher(s, Presence({"user"}, {"memberof"})) == Verdict(false, "missing label: " + "MemberOf")
  {
    TraversalTokens(s);
    TraversalVerdict(s);
  }

  lemma TraversalTokens(s: string)
    requires s == "(u:" + "User" + ")-[:" + "MemberOf" + "]->(g)"
    ensures LabelTokens(s) == ["User", "MemberOf"]
  {
    TraversalScans(s);
    AdmissionTexts.TraversalChars(s);
  }

  lemma TraversalScans(s: string)
    requires s == "(u:" + "User" + ")-[:" + "MemberOf" + "]->(g)"
    ensures |s| == 25 && LabelTokens(s) == [s[3..7], s[11..19]]
  {
    TraversalScanLabel(s);
    TraversalScanRel(s);
    TraversalScanEnd(s);
    TwoTokens(s, 7, 19, s[3..7], s[11..19]);
  }

  lemma TraversalVerdict(s: string)
    requires LabelTokens(s) == ["User", "MemberOf"]
    ensures CanRunCypher(s, Presence({"user"}, {"memberof"})) == Verdict(false, "missing label: " + "MemberOf")
  {
    LowerNames();
    SecondLabelMissing(s, Presence({"user"}, {"memberof"}), "User", "MemberOf");
  }
}
