/**
 * Errors as the runners see them, and the two copies of `looksTransient`
 * that decide whether a failed attempt is worth retrying.
 */
module Errors {
  import opened Ascii
  import opened Search

  /**
   * An error surfaced by a query attempt: either a Neo4j driver error, which
   * carries the server's classification (`TransientError`, `ClientError`,
   * ...), or any other error, of which only the message is visible.
   */
  datatype Error =
    | Driver(classification: string, message: string)
    | Plain(message: string)

  /**
   * The text `Error()` returns is a parameter `text: Error -> string`
   * wherever an output records it. It is not `Error.message`: a driver
   * error's text also carries its code and classification. For any other
   * error the text is the message itself, which this predicate states.
   */
  ghost predicate PlainTextIsMessage(text: Error -> string) {
    forall m :: text(Plain(m)) == m
  }

  /** The substrings that mark a non-driver error as network-ish. */
  const Markers: seq<string> :=
    ["connection refused", "i/o timeout", "temporary", "EOF", "broken pipe", "reset by peer", "ServiceUnavailable"]

  const TransientClass: string := "TransientError"

  /**
   * The marker loop of the newer runner: some `sub` of `subs` occurs in
   * `msg` once both are lower-cased.
   */
  function MarkerHit(msg: string, subs: seq<string>): (b: bool)
    ensures b <==> exists k :: 0 <= k < |subs| && Contains(Lower(msg), Lower(subs[k]))
  {
    if |subs| == 0 then false
    else Contains(Lower(msg), Lower(subs[0])) || MarkerHit(msg, subs[1..])
  }

  /**
   * `looksTransient` of internal/neo4jrunner: a driver error is transient
   * exactly when classified `TransientError`, whatever its message; any
   * other error when its message contains a marker, ignoring case.
   */
  function LooksTransient(e: Error): (b: bool)
    ensures e.Driver? ==> (b <==> e.classification == TransientClass)
    ensures e.Plain? ==>
              (b <==> exists k :: 0 <= k < |Markers| && Contains(Lower(e.message), Lower(Markers[k])))
  {
    match e
    case Driver(c, _) => c == TransientClass
    case Plain(m) => MarkerHit(m, Markers)
  }

  /**
   * runner.go's `containsAny`: some non-empty `sub` no longer than `s`
   * occurs in `s` under ASCII case folding (`stringIndexFold(s, sub) >= 0`).
   */
  function ContainsAny(s: string, subs: seq<string>): (b: bool)
    ensures b <==> exists k :: 0 <= k < |subs| && subs[k] != [] && |subs[k]| <= |s| && IndexFold(s, subs[k]) >= 0
    ensures |subs| == 0 ==> !b
  {
    if |subs| == 0 then false
    else if subs[0] != [] && |subs[0]| <= |s| && IndexFold(s, subs[0]) >= 0 then true
    else ContainsAny(s, subs[1..])
  }

  /** `looksTransient` of runner.go, with `containsAny` as its fallback. */
  function LegacyLooksTransient(e: Error): (b: bool)
    ensures e.Driver? ==> (b <==> e.classification == TransientClass)
    ensures e.Plain? ==>
              (b <==> exists k :: 0 <= k < |Markers| && Markers[k] != [] && |Markers[k]| <= |e.message| && IndexFold(e.message, Markers[k]) >= 0)
  {
    match e
    case Driver(c, _) => c == TransientClass
    case Plain(m) => ContainsAny(m, Markers)
  }

  /** A found fold position implies `sub` fits in `s`. */
  lemma FoldFoundFits(s: string, sub: string)
    requires IndexFold(s, sub) >= 0
    ensures |sub| <= |s|
  {
  }

  /** The fold search and the lower-casing search agree for non-empty patterns. */
  lemma ContainsAnyIsMarkerHit(m: string, subs: seq<string>)
    requires forall k :: 0 <= k < |subs| ==> subs[k] != []
    ensures ContainsAny(m, subs) <==> MarkerHit(m, subs)
  {
    if ContainsAny(m, subs) {
      var k :| 0 <= k < |subs| && subs[k] != [] && |subs[k]| <= |m| && IndexFold(m, subs[k]) >= 0;
      IndexFoldIsIndexOfLower(m, subs[k]);
      assert Contains(Lower(m), Lower(subs[k]));
    }
    if MarkerHit(m, subs) {
      var k :| 0 <= k < |subs| && Contains(Lower(m), Lower(subs[k]));
      IndexFoldIsIndexOfLower(m, subs[k]);
      FoldFoundFits(m, subs[k]);
    }
  }

  lemma MarkersNonEmpty()
    ensures forall k :: 0 <= k < |Markers| ==> Markers[k] != []
  {
  }

  /**
   * The two copies of `looksTransient` agree on every error: the markers are
   * non-empty, and the hand-written fold search finds what the lower-casing
   * `strings.Contains` finds.
   */
  lemma LooksTransientAgree(e: Error)
    ensures LegacyLooksTransient(e) <==> LooksTransient(e)
  {
    if e.Plain? {
      MarkersNonEmpty();
      ContainsAnyIsMarkerHit(e.message, Markers);
    }
  }

  /** A driver error that is not `TransientError` is never retried, whatever it says. */
  lemma DriverClassDecides(c: string, msg: string)
    requires c != TransientClass
    ensures !LooksTransient(Driver(c, msg)) && !LegacyLooksTransient(Driver(c, msg))
  {
  }
}
