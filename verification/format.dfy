/**
 * Cell text (internal/format): `OneLine` whitespace collapsing and the cell
 * rendering of `Value`. Unix-time formatting and `%v` rendering of floats and
 * other driver types are parameters.
 */
module Format {
  import opened Ascii
  import opened Search
  import opened Decimal
  import opened ResultSets

  // ---------------------------------------------------------------------
  // Fields and Join

  /** A word as `strings.Fields` yields them: non-empty, without white space. */
  predicate IsWord(w: string) {
    w != [] && forall i :: 0 <= i < |w| ==> !IsSpace(w[i])
  }

  /** The length of the white-space-free prefix of `s`. */
  function WordEnd(s: string): (n: nat)
    ensures n <= |s|
    ensures forall i :: 0 <= i < n ==> !IsSpace(s[i])
    ensures n == |s| || IsSpace(s[n])
  {
    if |s| > 0 && !IsSpace(s[0]) then 1 + WordEnd(s[1..]) else 0
  }

  /** `strings.Fields`: the maximal runs of non-white-space characters, in order. */
  function Fields(s: string): (r: seq<string>)
    ensures forall k :: 0 <= k < |r| ==> IsWord(r[k])
    decreases |s|
  {
    if |s| == 0 then []
    else if IsSpace(s[0]) then Fields(s[1..])
    else
      var n := WordEnd(s);
      [s[..n]] + Fields(s[n..])
  }

  /** `strings.Join(words, " ")`. */
  function JoinSpace(words: seq<string>): string {
    if |words| == 0 then ""
    else if |words| == 1 then words[0]
    else words[0] + " " + JoinSpace(words[1..])
  }

  /** The characters of `s` that are not white space, in order. */
  function NonSpace(s: string): (r: string)
    ensures |r| <= |s|
    ensures forall i :: 0 <= i < |r| ==> !IsSpace(r[i])
  {
    if |s| == 0 then ""
    else (if IsSpace(s[0]) then "" else [s[0]]) + NonSpace(s[1..])
  }

  function Concat(words: seq<string>): string {
    if |words| == 0 then "" else words[0] + Concat(words[1..])
  }

  lemma {:induction false} NonSpaceConcat(a: string, b: string)
    ensures NonSpace(a + b) == NonSpace(a) + NonSpace(b)
  {
    if |a| > 0 {
      assert (a + b)[1..] == a[1..] + b;
      NonSpaceConcat(a[1..], b);
    } else {
      assert a + b == b;
    }
  }

  lemma {:induction false} NonSpaceOfWord(w: string)
    requires forall i :: 0 <= i < |w| ==> !IsSpace(w[i])
    ensures NonSpace(w) == w
  {
    if |w| > 0 {
      NonSpaceOfWord(w[1..]);
    }
  }

  /** The words of `s` hold exactly its non-white-space characters. */
  lemma {:induction false} FieldsKeepNonSpace(s: string)
    ensures Concat(Fields(s)) == NonSpace(s)
    decreases |s|
  {
    if |s| > 0 {
      if IsSpace(s[0]) {
        FieldsKeepNonSpace(s[1..]);
      } else {
        var n := WordEnd(s);
        FieldsKeepNonSpace(s[n..]);
        assert ([s[..n]] + Fields(s[n..]))[1..] == Fields(s[n..]);
        assert s == s[..n] + s[n..];
        NonSpaceConcat(s[..n], s[n..]);
        NonSpaceOfWord(s[..n]);
      }
    }
  }

  /** Joining words with blanks keeps exactly their characters apart from the blanks. */
  lemma {:induction false} JoinKeepsNonSpace(words: seq<string>)
    requires forall k :: 0 <= k < |words| ==> IsWord(words[k])
    ensures NonSpace(JoinSpace(words)) == Concat(words)
  {
    if |words| == 1 {
      NonSpaceOfWord(words[0]);
      assert Concat(words[1..]) == "";
    } else if |words| > 1 {
      JoinKeepsNonSpace(words[1..]);
      NonSpaceConcat(words[0] + " ", JoinSpace(words[1..]));
      NonSpaceConcat(words[0], " ");
      NonSpaceOfWord(words[0]);
    }
  }

  /** A word followed by white space or nothing is the first field. */
  lemma FieldsOfWordThen(w: string, t: string)
    requires IsWord(w)
    requires t == [] || IsSpace(t[0])
    ensures Fields(w + t) == [w] + Fields(t)
  {
    var s := w + t;
    WordEndOf(w, t);
    assert s[..|w|] == w && s[|w|..] == t;
  }

  lemma {:induction false} WordEndOf(w: string, t: string)
    requires forall i :: 0 <= i < |w| ==> !IsSpace(w[i])
    requires t == [] || IsSpace(t[0])
    ensures WordEnd(w + t) == |w|
  {
    if |w| > 0 {
      assert (w + t)[1..] == w[1..] + t;
      WordEndOf(w[1..], t);
    } else {
      assert w + t == t;
    }
  }

  /** Splitting blank-joined words into fields gives the words back. */
  lemma {:induction false} FieldsOfJoin(words: seq<string>)
    requires forall k :: 0 <= k < |words| ==> IsWord(words[k])
    ensures Fields(JoinSpace(words)) == words
  {
    if |words| == 1 {
      FieldsOfWordThen(words[0], "");
      assert words[0] + "" == words[0];
    } else if |words| > 1 {
      var rest := JoinSpace(words[1..]);
      FieldsOfJoin(words[1..]);
      FieldsOfWordThen(words[0], " " + rest);
      assert words[0] + " " + rest == words[0] + (" " + rest);
      assert (" " + rest)[1..] == rest;
      assert words == [words[0]] + words[1..];
    }
  }

  /** Blank-joined words: no white space but single blanks between words, none at either end. */
  lemma {:induction false} JoinShape(words: seq<string>)
    requires forall k :: 0 <= k < |words| ==> IsWord(words[k])
    ensures var j := JoinSpace(words);
            && (forall i :: 0 <= i < |j| && IsSpace(j[i]) ==> j[i] == ' ')
            && (forall i :: 0 <= i < |j| - 1 && j[i] == ' ' ==> j[i + 1] != ' ')
            && (j == [] || (!IsSpace(j[0]) && !IsSpace(j[|j| - 1])))
  {
    if |words| > 1 {
      JoinShape(words[1..]);
      var w := words[0];
      var rest := JoinSpace(words[1..]);
      var j := w + " " + rest;
      assert forall i :: |w| + 1 <= i < |j| ==> j[i] == rest[i - |w| - 1];
    }
  }

  // ---------------------------------------------------------------------
  // OneLine

  /**
   * `OneLine`: newlines and carriage returns become blanks, then every run
   * of white space collapses to one blank and the ends are trimmed.
   */
  function OneLine(s: string): (r: string)
    ensures forall i :: 0 <= i < |r| ==> r[i] != '\n' && r[i] != '\r'
    ensures forall i :: 0 <= i < |r| && IsSpace(r[i]) ==> r[i] == ' '
    ensures forall i :: 0 <= i < |r| - 1 && r[i] == ' ' ==> r[i + 1] != ' '
    ensures r == [] || (!IsSpace(r[0]) && !IsSpace(r[|r| - 1]))
    ensures NonSpace(r) == NonSpace(s)
    ensures Fields(r) == Fields(s)
  {
    var t := ReplaceChar(ReplaceChar(s, '\n', ' '), '\r', ' ');
    var r := JoinSpace(Fields(t));
    JoinShape(Fields(t));
    JoinKeepsNonSpace(Fields(t));
    FieldsKeepNonSpace(t);
    NonSpaceOfReplacedSpace(s, '\n');
    NonSpaceOfReplacedSpace(ReplaceChar(s, '\n', ' '), '\r');
    FieldsOfJoin(Fields(t));
    FieldsOfReplacedSpace(s, '\n');
    FieldsOfReplacedSpace(ReplaceChar(s, '\n', ' '), '\r');
    r
  }

  /** `a` and `b` have white space at the same positions and the same characters elsewhere. */
  predicate SameWords(a: string, b: string) {
    |a| == |b| && forall i :: 0 <= i < |a| ==> IsSpace(a[i]) == IsSpace(b[i]) && (!IsSpace(a[i]) ==> a[i] == b[i])
  }

  lemma {:induction false} WordEndSame(a: string, b: string)
    requires SameWords(a, b)
    ensures WordEnd(a) == WordEnd(b)
  {
    if |a| > 0 && !IsSpace(a[0]) {
      WordEndSame(a[1..], b[1..]);
    }
  }

  /** Strings that differ only in which white-space characters they hold have the same fields. */
  lemma {:induction false} FieldsSame(a: string, b: string)
    requires SameWords(a, b)
    ensures Fields(a) == Fields(b)
    decreases |a|
  {
    if |a| > 0 {
      if IsSpace(a[0]) {
        FieldsSame(a[1..], b[1..]);
      } else {
        var n := WordEnd(a);
        WordEndSame(a, b);
        assert a[..n] == b[..n];
        FieldsSame(a[n..], b[n..]);
      }
    }
  }

  /** Turning one white-space character into a blank leaves the fields unchanged. */
  lemma FieldsOfReplacedSpace(s: string, c: char)
    requires IsSpace(c)
    ensures Fields(ReplaceChar(s, c, ' ')) == Fields(s)
  {
    FieldsSame(ReplaceChar(s, c, ' '), s);
  }

  /** Turning one white-space character into a blank hides no visible character. */
  lemma {:induction false} NonSpaceOfReplacedSpace(s: string, c: char)
    requires IsSpace(c)
    ensures NonSpace(ReplaceChar(s, c, ' ')) == NonSpace(s)
  {
    if |s| > 0 {
      NonSpaceOfReplacedSpace(s[1..], c);
      assert ReplaceChar(s, c, ' ')[1..] == ReplaceChar(s[1..], c, ' ');
    }
  }

  /** Collapsing is idempotent. */
  lemma OneLineIdempotent(s: string)
    ensures OneLine(OneLine(s)) == OneLine(s)
  {
    var r := OneLine(s);
    var t := ReplaceChar(ReplaceChar(s, '\n', ' '), '\r', ' ');
    assert ReplaceChar(ReplaceChar(r, '\n', ' '), '\r', ' ') == r;
    FieldsOfJoin(Fields(t));
  }

  // ---------------------------------------------------------------------
  // Value

  /** A column holding a Unix timestamp, judged by its lower-cased key. */
  predicate IsTimestampKey(key: string) {
    var lk := Lower(key);
    Contains(lk, "pwdlastset") || Contains(lk, "lastlogon") || Contains(lk, "lastlogontimestamp")
  }

  /** Go's `int64(x)` of an in-range float: truncation toward zero. */
  function TruncToInt(f: real): (i: int)
    ensures f >= 0.0 ==> i as real <= f < i as real + 1.0
    ensures f < 0.0 ==> i as real - 1.0 < f <= i as real
  {
    if f >= 0.0 then f.Floor else -((-f).Floor)
  }

  /** `%v` of an integer: optional minus sign, then the decimal digits. */
  function IntToString(i: int): (r: string)
    ensures |r| >= 1
    ensures i >= 0 ==> r == NatToString(i)
    ensures i < 0 ==> r == "-" + NatToString(-i)
  {
    if i >= 0 then NatToString(i) else "-" + NatToString(-i)
  }

  /**
   * `Formatter.Value`. `unixTime` stands for `time.Unix(x, 0).Format(RFC3339)`
   * and `render` for `%v` of the values the model does not render itself.
   */
  function CellValue(key: string, v: Value, unixTime: int -> string, render: Value -> string): (r: string)
    ensures v.Nil? ==> r == ""
    ensures v.Str? ==> r == v.s
    ensures IsTimestampKey(key) && v.Int? ==> r == unixTime(v.i)
    ensures IsTimestampKey(key) && v.Float? ==> r == unixTime(TruncToInt(v.f))
    ensures !IsTimestampKey(key) && v.Int? ==> r == IntToString(v.i)
    ensures v.Other? || (!IsTimestampKey(key) && v.Float?) ==> r == render(v)
  {
    match v
    case Nil => ""
    case Str(s) => s
    case Int(i) => if IsTimestampKey(key) then unixTime(i) else IntToString(i)
    case Float(f) => if IsTimestampKey(key) then unixTime(TruncToInt(f)) else render(v)
    case Other(_) => render(v)
  }

  /** `lastlogontimestamp` contains `lastlogon`, so the third marker never decides anything. */
  lemma TimestampKeyTwoMarkers(key: string)
    ensures IsTimestampKey(key) <==> Contains(Lower(key), "pwdlastset") || Contains(Lower(key), "lastlogon")
  {
    var lk := Lower(key);
    if Contains(lk, "lastlogontimestamp") {
      var i := IndexOf(lk, "lastlogontimestamp");
      assert lk[i..i + 9] == "lastlogontimestamp"[..9] == "lastlogon";
      assert OccursAt(lk, "lastlogon", i);
      ContainsIffOccurs(lk, "lastlogon");
    }
  }

  /** Only the key's lower-cased form matters. */
  lemma CellValueIgnoresKeyCase(key: string, v: Value, unixTime: int -> string, render: Value -> string)
    ensures CellValue(key, v, unixTime, render) == CellValue(Lower(key), v, unixTime, render)
  {
    LowerIsLowerCase(key);
    LowerOfLowerCase(Lower(key));
  }
}
