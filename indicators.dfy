/** The failure keywords of the log extractor and the case-insensitive search
    `re.search('|'.join(error_indicators), line, re.IGNORECASE)` over them. The
    keywords are plain lower-case ASCII words with no regular-expression
    metacharacters, so the alternation matches at a position exactly when one
    of the words occurs there, character by character under the fold. */
module Indicators {
  import opened PyStr

  /** The seventeen failure keywords, in the order the source lists them. */
  const ErrorIndicators: seq<string> := [
    "error", "fail", "panic", "critical", "fatal", "emergency",
    "alert", "warning", "exception", "segfault", "oops", "bug",
    "cannot", "unable", "timeout", "refused", "denied"
  ]

  /** `pat` occurs in `text` starting at position `j`. */
  predicate OccursAt(pat: string, text: string, j: nat)
  {
    j + |pat| <= |text| && text[j..j + |pat|] == pat
  }

  /** `pat` occurs as a contiguous piece of `text`. */
  ghost predicate IsSubstring(pat: string, text: string)
  {
    exists j: nat :: OccursAt(pat, text, j)
  }

  /** Reference meaning of a flagged line: its case-folded form contains one of
      the keywords as a substring (no word boundaries are required). */
  ghost predicate IsErrorLine(line: string)
  {
    exists w :: 0 <= w < |ErrorIndicators| && IsSubstring(ErrorIndicators[w], Lower(line))
  }

  /** The keyword `kw` matches `line` at position `j`, ignoring case. */
  predicate MatchesAt(kw: string, line: string, j: nat)
  {
    j + |kw| <= |line| && forall k :: 0 <= k < |kw| ==> Fold(line[j + k]) == kw[k]
  }

  /** Some alternative of the pattern matches at position `j`. */
  predicate AlternativeAt(line: string, j: nat)
  {
    exists v :: 0 <= v < |ErrorIndicators| && MatchesAt(ErrorIndicators[v], line, j)
  }

  /** The regular-expression search from position `j` on: succeeds at the
      first position where some alternative matches. */
  function SearchFrom(line: string, j: nat): (b: bool)
    requires j <= |line|
    ensures b <==> exists i :: j <= i <= |line| && AlternativeAt(line, i)
    decreases |line| - j
  {
    AlternativeAt(line, j) || (j < |line| && SearchFrom(line, j + 1))
  }

  /** A keyword matches at `j` exactly when it is the slice of the folded line
      that starts at `j`. */
  lemma MatchesAtIsSlice(kw: string, line: string, j: nat)
    ensures MatchesAt(kw, line, j) <==> j + |kw| <= |line| && Lower(line)[j..j + |kw|] == kw
  {
  }

  /** Whether `re.search` finds a keyword in the line: the test the extractor
      makes on every line, equal to the reference meaning. */
  function ContainsIndicator(line: string): (b: bool)
    ensures b <==> IsErrorLine(line)
  {
    SearchIsErrorLine(line);
    SearchFrom(line, 0)
  }

  /** The search succeeds exactly on the lines whose folded form contains a
      keyword. */
  lemma SearchIsErrorLine(line: string)
    ensures SearchFrom(line, 0) <==> IsErrorLine(line)
  {
    var low := Lower(line);
    if SearchFrom(line, 0) {
      var i :| 0 <= i <= |line| && AlternativeAt(line, i);
      var v :| 0 <= v < |ErrorIndicators| && MatchesAt(ErrorIndicators[v], line, i);
      var kw := ErrorIndicators[v];
      MatchesAtIsSlice(kw, line, i);
      assert OccursAt(kw, low, i);
      assert IsSubstring(ErrorIndicators[v], low);
    }
    if IsErrorLine(line) {
      var v :| 0 <= v < |ErrorIndicators| && IsSubstring(ErrorIndicators[v], low);
      var kw := ErrorIndicators[v];
      var i: nat :| OccursAt(kw, low, i);
      MatchesAtIsSlice(kw, line, i);
      assert MatchesAt(ErrorIndicators[v], line, i);
      assert i <= |line| && AlternativeAt(line, i);
      assert SearchFrom(line, 0);
    }
  }

  /** Matching is substring-level: text around a flagged line never unflags it
      (so "failover" and "cannot's" are flagged). */
  lemma {:induction false} ErrorLineInContext(pre: string, line: string, post: string)
    requires IsErrorLine(line)
    ensures IsErrorLine(pre + line + post)
  {
    var low := Lower(line);
    var v :| 0 <= v < |ErrorIndicators| && IsSubstring(ErrorIndicators[v], low);
    var kw := ErrorIndicators[v];
    var i: nat :| OccursAt(kw, low, i);
    var big := pre + line + post;
    var bigLow := Lower(big);
    var j := |pre| + i;
    forall k | 0 <= k < |kw|
      ensures bigLow[j + k] == kw[k]
    {
      assert big[j + k] == line[i + k];
      assert low[i..i + |kw|][k] == low[i + k];
    }
    assert bigLow[j..j + |kw|] == kw;
    assert OccursAt(kw, bigLow, j);
    assert IsSubstring(ErrorIndicators[v], bigLow);
  }

  /** Flagging examples: both capitalisations of "error occurred", and the
      keyword "fail" inside the word "failover". */
  lemma FlaggedExamples()
    ensures IsErrorLine("ERROR occurred")
    ensures IsErrorLine("error occurred")
    ensures IsErrorLine("failover")
  {
    assert ErrorIndicators[0] == "error" && ErrorIndicators[1] == "fail";
    assert OccursAt("error", Lower("ERROR occurred"), 0);
    assert IsSubstring(ErrorIndicators[0], Lower("ERROR occurred"));
    assert OccursAt("error", Lower("error occurred"), 0);
    assert IsSubstring(ErrorIndicators[0], Lower("error occurred"));
    assert OccursAt("fail", Lower("failover"), 0);
    assert IsSubstring(ErrorIndicators[1], Lower("failover"));
  }

  /** A line and its folded form are flagged alike. */
  lemma FoldedLineFlaggedAlike(line: string)
    ensures IsErrorLine(Lower(line)) <==> IsErrorLine(line)
  {
    LowerIdempotent(line);
  }
}
