/**
 * Substring search, prefix tests, single replacement and line splitting, as
 * the Go `strings` package and runner.go's hand-written case-insensitive
 * search perform them.
 */
module Search {
  import opened Ascii

  /** `sub` occurs in `s` starting at position `i`. */
  predicate OccursAt(s: string, sub: string, i: nat) {
    i + |sub| <= |s| && s[i..i + |sub|] == sub
  }

  /** `sub` occurs at `i` when both sides are compared under ASCII case folding. */
  predicate FoldOccursAt(s: string, sub: string, i: nat) {
    i + |sub| <= |s| && forall j :: 0 <= j < |sub| ==> ToLowerChar(s[i + j]) == ToLowerChar(sub[j])
  }

  function IndexFrom(s: string, sub: string, i: nat): (r: int)
    requires i <= |s|
    ensures r == -1 || (i <= r && OccursAt(s, sub, r))
    ensures forall j :: i <= j && (r == -1 || j < r) ==> !OccursAt(s, sub, j)
    decreases |s| - i
  {
    if OccursAt(s, sub, i) then i
    else if i == |s| then -1
    else IndexFrom(s, sub, i + 1)
  }

  /** `strings.Index`: the first position of `sub` in `s`, or -1. */
  function IndexOf(s: string, sub: string): (r: int)
    ensures r == -1 || (0 <= r && OccursAt(s, sub, r))
    ensures forall j: nat :: (r == -1 || j < r) ==> !OccursAt(s, sub, j)
  {
    IndexFrom(s, sub, 0)
  }

  /** `strings.Contains`. */
  predicate Contains(s: string, sub: string) {
    IndexOf(s, sub) >= 0
  }

  lemma ContainsIffOccurs(s: string, sub: string)
    ensures Contains(s, sub) <==> exists j: nat :: OccursAt(s, sub, j)
  {
  }

  lemma OccursInConcat(a: string, b: string, sub: string, j: nat)
    requires OccursAt(b, sub, j)
    ensures OccursAt(a + b, sub, |a| + j)
  {
    assert (a + b)[|a| + j..|a| + j + |sub|] == b[j..j + |sub|];
  }

  /** `strings.HasPrefix`. */
  predicate HasPrefix(s: string, prefix: string) {
    OccursAt(s, prefix, 0)
  }

  function IndexFoldFrom(s: string, sub: string, i: nat): (r: int)
    ensures r == -1 || (i <= r && FoldOccursAt(s, sub, r))
    ensures forall j :: i <= j && (r == -1 || j < r) ==> !FoldOccursAt(s, sub, j)
    decreases |s| - i
  {
    if i + |sub| > |s| then -1
    else if FoldOccursAt(s, sub, i) then i
    else IndexFoldFrom(s, sub, i + 1)
  }

  /**
   * runner.go's `stringIndexFold`, as a function: the smallest position where
   * `sub` matches under ASCII case folding, or -1.
   */
  function IndexFold(s: string, sub: string): (r: int)
    ensures r == -1 || (0 <= r && FoldOccursAt(s, sub, r))
    ensures forall j: nat :: (r == -1 || j < r) ==> !FoldOccursAt(s, sub, j)
  {
    IndexFoldFrom(s, sub, 0)
  }

  /**
   * runner.go's `stringIndexFold` with its two nested loops: the outer loop
   * tries every start `i` with `i + len(sub) <= len(s)`, the inner loop
   * compares folded runes and stops at the first mismatch.
   */
  method StringIndexFold(s: string, sub: string) returns (r: int)
    ensures r == -1 || (0 <= r && FoldOccursAt(s, sub, r))
    ensures forall j: nat :: (r == -1 || j < r) ==> !FoldOccursAt(s, sub, j)
    ensures r == IndexFold(s, sub)
  {
    var i := 0;
    while i + |sub| <= |s|
      invariant 0 <= i
      invariant forall k: nat :: k < i ==> !FoldOccursAt(s, sub, k)
      decreases |s| - i
    {
      var match_ := true;
      var j := 0;
      while j < |sub|
        invariant 0 <= j <= |sub|
        invariant forall m :: 0 <= m < j ==> ToLowerChar(s[i + m]) == ToLowerChar(sub[m])
        decreases |sub| - j
      {
        if ToLowerChar(s[i + j]) != ToLowerChar(sub[j]) {
          match_ := false;
          break;
        }
        j := j + 1;
      }
      if match_ {
        return i;
      }
      i := i + 1;
    }
    return -1;
  }

  /** Folded matching is exact matching of the lower-cased strings. */
  lemma FoldOccursIffLowerOccurs(s: string, sub: string, i: nat)
    ensures FoldOccursAt(s, sub, i) <==> OccursAt(Lower(s), Lower(sub), i)
  {
    if FoldOccursAt(s, sub, i) {
      assert Lower(s)[i..i + |sub|] == Lower(sub);
    }
    if OccursAt(Lower(s), Lower(sub), i) {
      forall j | 0 <= j < |sub|
        ensures ToLowerChar(s[i + j]) == ToLowerChar(sub[j])
      {
        assert Lower(s)[i..i + |sub|][j] == Lower(sub)[j];
      }
    }
  }

  /**
   * The hand-written search of runner.go finds exactly what the
   * `strings.Contains(strings.ToLower(s), strings.ToLower(sub))` idiom of the
   * newer runner finds, at the same position.
   */
  lemma {:induction false} IndexFoldIsIndexOfLower(s: string, sub: string)
    ensures IndexFold(s, sub) == IndexOf(Lower(s), Lower(sub))
  {
    var a := IndexFold(s, sub);
    var b := IndexOf(Lower(s), Lower(sub));
    if a >= 0 {
      FoldOccursIffLowerOccurs(s, sub, a);
      if b >= 0 && b < a {
        FoldOccursIffLowerOccurs(s, sub, b);
      }
    }
    if b >= 0 {
      FoldOccursIffLowerOccurs(s, sub, b);
      if a >= 0 && a < b {
        FoldOccursIffLowerOccurs(s, sub, a);
      }
    }
  }

  /**
   * `strings.Replace(s, old, new, 1)`: the first occurrence of `pattern` replaced
   * by `replacement`; `s` unchanged when `pattern` does not occur.
   */
  function ReplaceFirst(s: string, pattern: string, replacement: string): (r: string)
    ensures !Contains(s, pattern) ==> r == s
    ensures Contains(s, pattern) ==>
              var i := IndexOf(s, pattern);
              r == s[..i] + replacement + s[i + |pattern|..]
  {
    var i := IndexOf(s, pattern);
    if i < 0 then s else s[..i] + replacement + s[i + |pattern|..]
  }

  function IndexOfChar(s: string, c: char): (r: int)
    ensures r == -1 || (0 <= r < |s| && s[r] == c)
    ensures forall j :: 0 <= j < |s| && (r == -1 || j < r) ==> s[j] != c
  {
    if |s| == 0 then -1
    else if s[0] == c then 0
    else var k := IndexOfChar(s[1..], c); if k < 0 then -1 else k + 1
  }

  /** `strings.Split(s, "\n")`: at least one piece, none containing a newline. */
  function SplitLines(s: string): (r: seq<string>)
    ensures |r| >= 1
    ensures forall k, j :: 0 <= k < |r| && 0 <= j < |r[k]| ==> r[k][j] != '\n'
    decreases |s|
  {
    var i := IndexOfChar(s, '\n');
    if i < 0 then [s] else [s[..i]] + SplitLines(s[i + 1..])
  }

  /** `strings.Join(lines, "\n")`. */
  function JoinLines(lines: seq<string>): string {
    if |lines| == 0 then ""
    else if |lines| == 1 then lines[0]
    else lines[0] + "\n" + JoinLines(lines[1..])
  }

  lemma JoinLinesCons(head: string, tail: seq<string>)
    requires |tail| >= 1
    ensures JoinLines([head] + tail) == head + "\n" + JoinLines(tail)
  {
    assert ([head] + tail)[1..] == tail;
  }

  /** Splitting at newlines and joining back gives the original text. */
  lemma {:induction false} JoinSplitLines(s: string)
    ensures JoinLines(SplitLines(s)) == s
    decreases |s|
  {
    var i := IndexOfChar(s, '\n');
    if i >= 0 {
      var rest := s[i + 1..];
      JoinSplitLines(rest);
      JoinLinesCons(s[..i], SplitLines(rest));
      assert s == s[..i] + "\n" + rest;
    }
  }
}
