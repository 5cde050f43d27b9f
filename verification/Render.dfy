/** The English texts of reasons and explanations. An explanation can be read back from its text. */
module Render {
  import opened Direct
  import opened Simulation

  function Decimal(n: nat): string {
    if n < 10 then ["0123456789"[n]] else Decimal(n / 10) + ["0123456789"[n % 10]]
  }

  function Joined(parts: seq<string>, separator: string): string {
    if parts == [] then ""
    else if |parts| == 1 then parts[0]
    else parts[0] + separator + Joined(parts[1..], separator)
  }

  function ChainReasonText(r: ChainReason): string {
    match r
    case ChainNotActive(code) => code + " is not active"
    case OutsideWindow(code) => code + " is outside its validity window"
    case NotValidated(code) => code + " did not pass offline signature validation"
    case AnchorUnavailable(code) => code + " anchor is unavailable at this timepoint"
    case AnchorNotTrusted(code, anchorId) => code + " trust set does not include anchor " + Decimal(anchorId)
  }

  function ReasonText(r: Reason): string {
    match r
    case PathReachable => "certificate path is reachable"
    case ChainMissing => "configured certificate chain is missing"
    case NoMatchingCandidate => "no candidate chain matches the configured leaf identity"
    case AllRefused(reasons) =>
      Joined(seq(|reasons|, i requires 0 <= i < |reasons| => ChainReasonText(reasons[i])), "; ")
    case AbsentOrInactive => "dependency service is absent or inactive"
    case CycleEncountered => "dependency cycle encountered in frozen graph"
    case Upstream(code, inner) => "upstream dependency " + code + " is unreachable: " + ReasonText(inner)
  }

  const ALL_REACHABLE :=
    "All active " + "service trust paths remain reachable before, during, and after the proposed overlap window."
  const FAILURES := " service" + "-timepoint failures were found across "
  const PATHS := " broken paths."
  const FAIL_BEFORE := "Some paths fail before overlap, indicating the new trust path may be introduced too late."
  const FAIL_AFTER :=
    "Some paths fail after overlap, indicating the old anchor may be removed before all clients trust the replacement."

  function Counts(failures: string, found: string, paths: string, end: string): string {
    failures + found + paths + end
  }

  function ExplanationText(e: Explanation): string {
    match e
    case AllReachable => ALL_REACHABLE
    case FailuresFound(failures, paths, before, after) =>
      Joined(
        [Counts(Decimal(failures), FAILURES, Decimal(paths), PATHS)]
        + (if before then [FAIL_BEFORE] else []) + (if after then [FAIL_AFTER] else []),
        " ")
  }

  // ---------- numbers are written so that they can be read back ----------

  ghost predicate AllDigits(s: string) {
    forall i :: 0 <= i < |s| ==> '0' <= s[i] <= '9'
  }

  ghost function Value(s: string): int {
    if s == "" then 0 else 10 * Value(s[..|s| - 1]) + (s[|s| - 1] as int - '0' as int)
  }

  lemma {:induction false} DecimalReadsBack(n: nat)
    ensures var s := Decimal(n);
      && s != "" && AllDigits(s) && Value(s) == n && (s[0] == '0' ==> n == 0 && s == "0")
  {
    var digits := "0123456789";
    assert forall d :: 0 <= d < 10 ==> digits[d] as int == '0' as int + d;
    if n >= 10 {
      DecimalReadsBack(n / 10);
      var s := Decimal(n);
      assert s[..|s| - 1] == Decimal(n / 10);
    } else {
      assert Decimal(n)[..0] == "";
    }
  }

  // ---------- the explanation can be read off its text ----------

  function Tail(before: bool, after: bool, tooLate: string, tooEarly: string): string {
    (if before then " " + tooLate else "") + (if after then " " + tooEarly else "")
  }

  lemma JoinedSentences(counts: string, before: bool, after: bool, tooLate: string, tooEarly: string)
    ensures Joined([counts] + (if before then [tooLate] else []) + (if after then [tooEarly] else []), " ")
            == counts + Tail(before, after, tooLate, tooEarly)
  {
    var parts := [counts] + (if before then [tooLate] else []) + (if after then [tooEarly] else []);
    if before && after {
      assert parts == [counts, tooLate, tooEarly] && parts[1..] == [tooLate, tooEarly] && parts[1..][1..] == [tooEarly];
      assert Joined(parts[1..], " ") == tooLate + " " + tooEarly;
      assert counts + " " + (tooLate + " " + tooEarly) == counts + (" " + tooLate + (" " + tooEarly));
    } else if before || after {
      var sentence := if before then tooLate else tooEarly;
      assert parts == [counts, sentence] && parts[1..] == [sentence];
      assert counts + " " + sentence == counts + (" " + sentence);
      assert Tail(before, after, tooLate, tooEarly) == " " + sentence;
    } else {
      assert parts == [counts] && counts + "" == counts;
    }
  }

  /** The text has the two counts, and each sentence about a phase exactly when its clause is set. */
  lemma ExplanationSentences(failures: nat, paths: nat, before: bool, after: bool)
    ensures ExplanationText(FailuresFound(failures, paths, before, after))
            == Counts(Decimal(failures), FAILURES, Decimal(paths), PATHS) + Tail(before, after, FAIL_BEFORE, FAIL_AFTER)
  {
    JoinedSentences(Counts(Decimal(failures), FAILURES, Decimal(paths), PATHS), before, after, FAIL_BEFORE, FAIL_AFTER);
  }

  lemma DigitsNoShorter(a: string, x: string, b: string, y: string)
    requires AllDigits(b) && a + x == b + y && x != "" && x[0] == ' '
    ensures |a| >= |b|
  {
    assert (a + x)[|a|] == ' ';
    assert forall i :: 0 <= i < |b| ==> (b + y)[i] == b[i];
  }

  lemma DigitsEnd(a: string, x: string, b: string, y: string)
    requires AllDigits(a) && AllDigits(b) && a + x == b + y
    requires x != "" && y != "" && x[0] == ' ' && y[0] == ' '
    ensures a == b && x == y
  {
    DigitsNoShorter(a, x, b, y);
    DigitsNoShorter(b, y, a, x);
    assert a == (a + x)[..|a|] && b == (b + y)[..|b|];
    assert x == (a + x)[|a|..] && y == (b + y)[|b|..];
  }

  lemma SamePrefix(p: string, x: string, y: string)
    requires p + x == p + y
    ensures x == y
  {
    assert x == (p + x)[|p|..] && y == (p + y)[|p|..];
  }

  /** Counts in digits, each followed by a phrase that begins with a space, can be read off a text. */
  lemma CountsReadBack(f1: string, p1: string, t1: string, f2: string, p2: string, t2: string,
                       found: string, end: string)
    requires AllDigits(f1) && AllDigits(p1) && AllDigits(f2) && AllDigits(p2)
    requires found != "" && found[0] == ' ' && end != "" && end[0] == ' '
    requires Counts(f1, found, p1, end) + t1 == Counts(f2, found, p2, end) + t2
    ensures f1 == f2 && p1 == p2 && t1 == t2
  {
    assert Counts(f1, found, p1, end) + t1 == f1 + (found + (p1 + (end + t1)));
    assert Counts(f2, found, p2, end) + t2 == f2 + (found + (p2 + (end + t2)));
    DigitsEnd(f1, found + (p1 + (end + t1)), f2, found + (p2 + (end + t2)));
    SamePrefix(found, p1 + (end + t1), p2 + (end + t2));
    DigitsEnd(p1, end + t1, p2, end + t2);
    SamePrefix(end, t1, t2);
  }

  lemma TailReadsBack(b1: bool, a1: bool, b2: bool, a2: bool, tooLate: string, tooEarly: string)
    requires Tail(b1, a1, tooLate, tooEarly) == Tail(b2, a2, tooLate, tooEarly) && |tooLate| < |tooEarly|
    ensures b1 == b2 && a1 == a2
  {
    assert |Tail(b1, a1, tooLate, tooEarly)| == (if b1 then 1 + |tooLate| else 0) + (if a1 then 1 + |tooEarly| else 0);
    assert |Tail(b2, a2, tooLate, tooEarly)| == (if b2 then 1 + |tooLate| else 0) + (if a2 then 1 + |tooEarly| else 0);
  }

  lemma Phrases()
    ensures FAILURES != "" && FAILURES[0] == ' ' && PATHS != "" && PATHS[0] == ' '
    ensures |FAIL_BEFORE| < |FAIL_AFTER| && ALL_REACHABLE != "" && ALL_REACHABLE[0] == 'A'
  {
    assert |FAIL_BEFORE| == 89 && |FAIL_AFTER| == 113;
    assert ALL_REACHABLE[0] == "All active "[0];
    assert FAILURES[0] == " service"[0];
  }

  function Sentences(e: Explanation, found: string, end: string, tooLate: string, tooEarly: string): string
    requires e.FailuresFound?
  {
    Counts(Decimal(e.failures), found, Decimal(e.paths), end) + Tail(e.beforeOverlap, e.afterOverlap, tooLate, tooEarly)
  }

  lemma BeginsWithDigit(e: Explanation, found: string, end: string, tooLate: string, tooEarly: string)
    requires e.FailuresFound?
    ensures var text := Sentences(e, found, end, tooLate, tooEarly); text != "" && '0' <= text[0] <= '9'
  {
    DecimalReadsBack(e.failures);
  }

  lemma SentencesReadBack(e: Explanation, f: Explanation, found: string, end: string, tooLate: string, tooEarly: string)
    requires e.FailuresFound? && f.FailuresFound?
    requires found != "" && found[0] == ' ' && end != "" && end[0] == ' ' && |tooLate| < |tooEarly|
    requires Sentences(e, found, end, tooLate, tooEarly) == Sentences(f, found, end, tooLate, tooEarly)
    ensures e == f
  {
    DecimalReadsBack(e.failures);
    DecimalReadsBack(e.paths);
    DecimalReadsBack(f.failures);
    DecimalReadsBack(f.paths);
    CountsReadBack(
      Decimal(e.failures), Decimal(e.paths), Tail(e.beforeOverlap, e.afterOverlap, tooLate, tooEarly),
      Decimal(f.failures), Decimal(f.paths), Tail(f.beforeOverlap, f.afterOverlap, tooLate, tooEarly), found, end);
    TailReadsBack(e.beforeOverlap, e.afterOverlap, f.beforeOverlap, f.afterOverlap, tooLate, tooEarly);
  }

  lemma TextIsSentences(e: Explanation)
    requires e.FailuresFound?
    ensures ExplanationText(e) == Sentences(e, FAILURES, PATHS, FAIL_BEFORE, FAIL_AFTER)
  {
    ExplanationSentences(e.failures, e.paths, e.beforeOverlap, e.afterOverlap);
  }

  /** Different explanations have different texts, so that a replay which finds the same text found the same counts and
      the same clauses. */
  lemma ExplanationReadsBack(e: Explanation, f: Explanation)
    requires ExplanationText(e) == ExplanationText(f)
    ensures e == f
  {
    Phrases();
    if e.FailuresFound? {
      TextIsSentences(e);
      BeginsWithDigit(e, FAILURES, PATHS, FAIL_BEFORE, FAIL_AFTER);
    }
    if f.FailuresFound? {
      TextIsSentences(f);
      BeginsWithDigit(f, FAILURES, PATHS, FAIL_BEFORE, FAIL_AFTER);
    }
    if e.FailuresFound? && f.FailuresFound? {
      SentencesReadBack(e, f, FAILURES, PATHS, FAIL_BEFORE, FAIL_AFTER);
    }
  }
}
