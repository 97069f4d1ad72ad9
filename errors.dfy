/** The log error-pattern extractor `extract_error_patterns`: it splits console
    log text into lines, flags every line in which a failure keyword occurs
    (ignoring case), records each flagged line with up to two non-blank lines
    of context on either side, and summarises the scan, reporting at most the
    first fifteen records. */
module Errors {
  import opened PyStr
  import opened Indicators

  /** One flagged line: its 1-based number, its stripped text, and the
      stripped non-blank lines of its two-line windows before and after. */
  datatype MatchRecord = MatchRecord(
    lineNumber: nat,
    content: string,
    contextBefore: seq<string>,
    contextAfter: seq<string>)

  /** The dictionary the extractor returns. Empty input gets the two-key
      dictionary `{"has_errors": False, "error_lines": []}`; any other input
      gets all four keys. */
  datatype ScanResult =
    | Empty
    | Full(hasErrors: bool, errorCount: nat, errorLines: seq<MatchRecord>, totalLines: nat)
  {
    /** The `has_errors` key, present in both shapes. */
    function HasErrors(): bool
    {
      if Empty? then false else hasErrors
    }

    /** The `error_lines` key, present in both shapes. */
    function ErrorLines(): seq<MatchRecord>
    {
      if Empty? then [] else errorLines
    }
  }

  /** How many records the result keeps (`error_lines[:15]`). */
  const MaxErrorLines: nat := 15

  /** `[l.strip() for l in lines if l.strip()]`: the stripped lines, in order,
      leaving out those that strip to nothing. */
  function NonBlankStripped(lines: seq<string>): (r: seq<string>)
    ensures |r| <= |lines|
    ensures forall k :: 0 <= k < |r| ==> r[k] != ""
  {
    if lines == [] then
      []
    else
      var s := Strip(lines[0]);
      if s != "" then [s] + NonBlankStripped(lines[1..]) else NonBlankStripped(lines[1..])
  }

  /** What the comprehension keeps: every entry is some line stripped, every
      line that does not strip to nothing is kept, and when nothing is
      dropped the entries are the stripped lines in their order. */
  lemma {:induction false} NonBlankStrippedSpec(lines: seq<string>)
    ensures forall x :: x in NonBlankStripped(lines) ==>
      exists j :: 0 <= j < |lines| && Strip(lines[j]) == x
    ensures forall j :: 0 <= j < |lines| && Strip(lines[j]) != "" ==>
      Strip(lines[j]) in NonBlankStripped(lines)
    ensures |NonBlankStripped(lines)| == |lines| <==>
      forall j :: 0 <= j < |lines| ==> Strip(lines[j]) != ""
    ensures |NonBlankStripped(lines)| == |lines| ==>
      forall j :: 0 <= j < |lines| ==> NonBlankStripped(lines)[j] == Strip(lines[j])
  {
    if lines != [] {
      var tail := lines[1..];
      NonBlankStrippedSpec(tail);
      var r := NonBlankStripped(lines);
      var rest := NonBlankStripped(tail);
      assert forall j :: 1 <= j < |lines| ==> lines[j] == tail[j - 1];
      if Strip(lines[0]) != "" {
        assert r == [Strip(lines[0])] + rest;
        forall x | x in r
          ensures exists j :: 0 <= j < |lines| && Strip(lines[j]) == x
        {
          if x != Strip(lines[0]) {
            assert x in rest;
            var j' :| 0 <= j' < |tail| && Strip(tail[j']) == x;
            assert Strip(lines[j' + 1]) == x;
          }
        }
      } else {
        assert r == rest;
        assert |r| < |lines|;
        forall x | x in r
          ensures exists j :: 0 <= j < |lines| && Strip(lines[j]) == x
        {
          var j' :| 0 <= j' < |tail| && Strip(tail[j']) == x;
          assert Strip(lines[j' + 1]) == x;
        }
      }
    }
  }

  /** What the comprehension keeps of one line: the line stripped, or nothing
      when it strips to nothing. */
  function Kept(line: string): seq<string>
  {
    if Strip(line) != "" then [Strip(line)] else []
  }

  /** The comprehension distributes over concatenation: it keeps the lines in
      their order, repeats included, each by itself. */
  lemma {:induction false} NonBlankStrippedAppend(a: seq<string>, b: seq<string>)
    ensures NonBlankStripped(a + b) == NonBlankStripped(a) + NonBlankStripped(b)
  {
    if a != [] {
      NonBlankStrippedAppend(a[1..], b);
      assert (a + b)[1..] == a[1..] + b;
      assert (a + b)[0] == a[0];
    } else {
      assert a + b == b;
    }
  }

  /** On a single line the comprehension keeps what `Kept` says. */
  lemma NonBlankStrippedOne(line: string)
    ensures NonBlankStripped([line]) == Kept(line)
  {
    assert [line][1..] == [];
  }

  /** `NonBlankStripped` of the window `lines[lo..hi]`, stated in terms of the
      indices of `lines`. */
  lemma WindowOfLines(lines: seq<string>, lo: nat, hi: nat)
    requires lo <= hi <= |lines|
    ensures forall x :: x in NonBlankStripped(lines[lo..hi]) ==>
      exists j :: lo <= j < hi && Strip(lines[j]) == x
    ensures forall j :: lo <= j < hi && Strip(lines[j]) != "" ==>
      Strip(lines[j]) in NonBlankStripped(lines[lo..hi])
    ensures |NonBlankStripped(lines[lo..hi])| == hi - lo <==>
      forall j :: lo <= j < hi ==> Strip(lines[j]) != ""
    ensures |NonBlankStripped(lines[lo..hi])| == hi - lo ==>
      forall j :: lo <= j < hi ==> NonBlankStripped(lines[lo..hi])[j - lo] == Strip(lines[j])
  {
    var window := lines[lo..hi];
    var r := NonBlankStripped(window);
    NonBlankStrippedSpec(window);
    assert forall k :: 0 <= k < |window| ==> window[k] == lines[lo + k];
    assert forall j :: lo <= j < hi ==> window[j - lo] == lines[j];
    forall x | x in r
      ensures exists j :: lo <= j < hi && Strip(lines[j]) == x
    {
      var j' :| 0 <= j' < |window| && Strip(window[j']) == x;
      assert window[j'] == lines[lo + j'];
    }
    forall j | lo <= j < hi && Strip(lines[j]) != ""
      ensures Strip(lines[j]) in r
    {
      assert window[j - lo] == lines[j];
    }
    if |r| == hi - lo {
      forall j | lo <= j < hi
        ensures r[j - lo] == Strip(lines[j])
      {
        assert window[j - lo] == lines[j];
      }
    }
  }

  /** The `context_before` list of the line at index `i`: the non-blank lines
      among `log_lines[max(0, i-2):i]`, stripped. */
  function ContextBefore(lines: seq<string>, i: nat): (r: seq<string>)
    requires i < |lines|
    ensures |r| <= 2 && |r| <= i
    ensures forall k :: 0 <= k < |r| ==> r[k] != ""
  {
    NonBlankStripped(lines[if i < 2 then 0 else i - 2..i])
  }

  /** `context_before` holds at most the two lines before line `i` (fewer at
      the start of the text), stripped, exactly those that are not blank, and
      in text order: line `i-2`'s contribution followed by line `i-1`'s. */
  lemma ContextBeforeSpec(lines: seq<string>, i: nat)
    requires i < |lines|
    ensures forall x :: x in ContextBefore(lines, i) ==>
      exists j :: 0 <= j && i - 2 <= j < i && Strip(lines[j]) == x
    ensures forall j :: 0 <= j && i - 2 <= j < i && Strip(lines[j]) != "" ==>
      Strip(lines[j]) in ContextBefore(lines, i)
    ensures |ContextBefore(lines, i)| == 2 ==>
      ContextBefore(lines, i) == [Strip(lines[i - 2]), Strip(lines[i - 1])]
    ensures ContextBefore(lines, i)
      == (if i >= 2 then Kept(lines[i - 2]) else []) + (if i >= 1 then Kept(lines[i - 1]) else [])
  {
    var lo := if i < 2 then 0 else i - 2;
    WindowOfLines(lines, lo, i);
    if i >= 2 {
      assert lines[lo..i] == [lines[i - 2]] + [lines[i - 1]];
      NonBlankStrippedAppend([lines[i - 2]], [lines[i - 1]]);
      NonBlankStrippedOne(lines[i - 2]);
      NonBlankStrippedOne(lines[i - 1]);
    } else if i == 1 {
      assert lines[lo..i] == [lines[0]];
      NonBlankStrippedOne(lines[0]);
      assert [] + Kept(lines[0]) == Kept(lines[0]);
    }
  }

  /** The `context_after` list of the line at index `i`: the non-blank lines
      among `log_lines[i+1:min(len(log_lines), i+3)]`, stripped. */
  function ContextAfter(lines: seq<string>, i: nat): (r: seq<string>)
    requires i < |lines|
    ensures |r| <= 2 && |r| < |lines| - i
    ensures forall k :: 0 <= k < |r| ==> r[k] != ""
  {
    NonBlankStripped(lines[i + 1..if |lines| < i + 3 then |lines| else i + 3])
  }

  /** `context_after` holds at most the two lines after line `i`, never
      reading past the last line, stripped, exactly those that are not blank,
      and in text order: line `i+1`'s contribution followed by line `i+2`'s. */
  lemma ContextAfterSpec(lines: seq<string>, i: nat)
    requires i < |lines|
    ensures forall x :: x in ContextAfter(lines, i) ==>
      exists j :: i < j < i + 3 && j < |lines| && Strip(lines[j]) == x
    ensures forall j :: i < j < i + 3 && j < |lines| && Strip(lines[j]) != "" ==>
      Strip(lines[j]) in ContextAfter(lines, i)
    ensures |ContextAfter(lines, i)| == 2 ==>
      ContextAfter(lines, i) == [Strip(lines[i + 1]), Strip(lines[i + 2])]
    ensures ContextAfter(lines, i)
      == (if i + 1 < |lines| then Kept(lines[i + 1]) else [])
       + (if i + 2 < |lines| then Kept(lines[i + 2]) else [])
  {
    var hi := if |lines| < i + 3 then |lines| else i + 3;
    WindowOfLines(lines, i + 1, hi);
    if i + 2 < |lines| {
      assert lines[i + 1..hi] == [lines[i + 1]] + [lines[i + 2]];
      NonBlankStrippedAppend([lines[i + 1]], [lines[i + 2]]);
      NonBlankStrippedOne(lines[i + 1]);
      NonBlankStrippedOne(lines[i + 2]);
    } else if i + 1 < |lines| {
      assert lines[i + 1..hi] == [lines[i + 1]];
      NonBlankStrippedOne(lines[i + 1]);
      assert Kept(lines[i + 1]) + [] == Kept(lines[i + 1]);
    }
  }

  /** The record built for the flagged line at index `i`. */
  function RecordAt(lines: seq<string>, i: nat): MatchRecord
    requires i < |lines|
  {
    MatchRecord(i + 1, Strip(lines[i]), ContextBefore(lines, i), ContextAfter(lines, i))
  }

  /** The records the scan has collected after visiting the first `k` lines. */
  ghost function ScanPrefix(lines: seq<string>, k: nat): seq<MatchRecord>
    requires k <= |lines|
  {
    if k == 0 then
      []
    else
      ScanPrefix(lines, k - 1) + (if IsErrorLine(lines[k - 1]) then [RecordAt(lines, k - 1)] else [])
  }

  /** The indices, below `k`, of the lines that contain a failure keyword. */
  ghost function FlaggedIndices(lines: seq<string>, k: nat): set<nat>
    requires k <= |lines|
  {
    set j: nat | j < k && IsErrorLine(lines[j])
  }

  /** What `extract_error_patterns` returns for `logContent`. */
  ghost function ErrorPatterns(logContent: string): ScanResult
  {
    if logContent == "" then
      Empty
    else
      var logLines := Split(logContent);
      var errorLines := ScanPrefix(logLines, |logLines|);
      Full(
        |errorLines| > 0,
        |errorLines|,
        if |errorLines| <= MaxErrorLines then errorLines else errorLines[..MaxErrorLines],
        |logLines|)
  }

  /** `extract_error_patterns(log_content)`: one pass over the lines, appending
      a record for every flagged line, then the summary. */
  method ExtractErrorPatterns(logContent: string) returns (r: ScanResult)
    ensures r == ErrorPatterns(logContent)
    ensures r.Empty? <==> logContent == ""
    ensures r.Empty? ==> !r.HasErrors() && r.ErrorLines() == []
    ensures r.Full? ==> r.totalLines == CountChar(logContent, '\n') + 1
    ensures r.Full? ==> (r.hasErrors <==> r.errorCount > 0)
    ensures r.Full? ==> |r.errorLines| <= MaxErrorLines && |r.errorLines| <= r.errorCount
    ensures r.Full? && r.errorCount <= MaxErrorLines ==> |r.errorLines| == r.errorCount
    ensures r.Full? && r.errorCount > MaxErrorLines ==> |r.errorLines| == MaxErrorLines
  {
    if logContent == "" {
      return Empty;
    }
    var errorLines: seq<MatchRecord> := [];
    var logLines := Split(logContent);
    var i := 0;
    while i < |logLines|
      invariant i <= |logLines|
      invariant errorLines == ScanPrefix(logLines, i)
    {
      var line := logLines[i];
      if ContainsIndicator(line) {
        var context := MatchRecord(
          i + 1,
          Strip(line),
          ContextBefore(logLines, i),
          ContextAfter(logLines, i));
        errorLines := errorLines + [context];
      }
      i := i + 1;
    }
    var kept := if |errorLines| <= MaxErrorLines then errorLines else errorLines[..MaxErrorLines];
    r := Full(|errorLines| > 0, |errorLines|, kept, |logLines|);
  }

  /** Visiting one more line adds its index to the flagged ones exactly when
      it is flagged. */
  lemma FlaggedIndicesStep(lines: seq<string>, k: nat)
    requires k < |lines|
    ensures IsErrorLine(lines[k]) ==> FlaggedIndices(lines, k + 1) == FlaggedIndices(lines, k) + {k}
    ensures !IsErrorLine(lines[k]) ==> FlaggedIndices(lines, k + 1) == FlaggedIndices(lines, k)
    ensures k !in FlaggedIndices(lines, k)
  {
  }

  /** The number of records collected is the number of flagged lines. */
  lemma {:induction false} ScanPrefixCount(lines: seq<string>, k: nat)
    requires k <= |lines|
    ensures |ScanPrefix(lines, k)| == |FlaggedIndices(lines, k)|
  {
    if k > 0 {
      ScanPrefixCount(lines, k - 1);
      FlaggedIndicesStep(lines, k - 1);
    }
  }

  /** Scanning further only appends: the records after `j` lines are a prefix
      of the records after `k >= j` lines. */
  lemma {:induction false} ScanPrefixExtends(lines: seq<string>, j: nat, k: nat)
    requires j <= k <= |lines|
    ensures |ScanPrefix(lines, j)| <= |ScanPrefix(lines, k)|
    ensures ScanPrefix(lines, k)[..|ScanPrefix(lines, j)|] == ScanPrefix(lines, j)
  {
    if j < k {
      ScanPrefixExtends(lines, j, k - 1);
      var prev := ScanPrefix(lines, k - 1);
      assert ScanPrefix(lines, k)[..|prev|] == prev;
      assert ScanPrefix(lines, k)[..|ScanPrefix(lines, j)|] == prev[..|ScanPrefix(lines, j)|];
    }
  }

  /** Every collected record is the record of a flagged line among the first
      `k`. */
  lemma {:induction false} ScanPrefixSound(lines: seq<string>, k: nat)
    requires k <= |lines|
    ensures forall p :: 0 <= p < |ScanPrefix(lines, k)| ==>
      && 1 <= ScanPrefix(lines, k)[p].lineNumber <= k
      && IsErrorLine(lines[ScanPrefix(lines, k)[p].lineNumber - 1])
      && ScanPrefix(lines, k)[p] == RecordAt(lines, ScanPrefix(lines, k)[p].lineNumber - 1)
  {
    if k > 0 {
      ScanPrefixSound(lines, k - 1);
      var prev := ScanPrefix(lines, k - 1);
      var recs := ScanPrefix(lines, k);
      forall p | 0 <= p < |recs|
        ensures 1 <= recs[p].lineNumber <= k
        ensures IsErrorLine(lines[recs[p].lineNumber - 1])
        ensures recs[p] == RecordAt(lines, recs[p].lineNumber - 1)
      {
        if p < |prev| {
          assert recs[p] == prev[p];
        } else {
          assert recs[p] == RecordAt(lines, k - 1);
        }
      }
    }
  }

  /** The collected records come in strictly increasing line order. */
  lemma {:induction false} ScanPrefixOrdered(lines: seq<string>, k: nat)
    requires k <= |lines|
    ensures forall p, q :: 0 <= p < q < |ScanPrefix(lines, k)| ==>
      ScanPrefix(lines, k)[p].lineNumber < ScanPrefix(lines, k)[q].lineNumber
  {
    if k > 0 {
      ScanPrefixOrdered(lines, k - 1);
      ScanPrefixSound(lines, k - 1);
      var prev := ScanPrefix(lines, k - 1);
      var recs := ScanPrefix(lines, k);
      forall p, q | 0 <= p < q < |recs|
        ensures recs[p].lineNumber < recs[q].lineNumber
      {
        assert recs[p] == prev[p];
        if q < |prev| {
          assert recs[q] == prev[q];
        } else {
          assert recs[q] == RecordAt(lines, k - 1);
        }
      }
    }
  }

  /** The record of the flagged line at index `j` sits at the position given
      by the number of flagged lines before it. */
  lemma RecordPosition(lines: seq<string>, j: nat, k: nat)
    requires j < k <= |lines|
    requires IsErrorLine(lines[j])
    ensures |FlaggedIndices(lines, j)| < |ScanPrefix(lines, k)|
    ensures ScanPrefix(lines, k)[|FlaggedIndices(lines, j)|] == RecordAt(lines, j)
  {
    ScanPrefixCount(lines, j);
    ScanPrefixExtends(lines, j + 1, k);
    var upTo := ScanPrefix(lines, j + 1);
    assert upTo == ScanPrefix(lines, j) + [RecordAt(lines, j)];
    assert ScanPrefix(lines, k)[|FlaggedIndices(lines, j)|] == upTo[|ScanPrefix(lines, j)|];
  }

  /** A line gets a record exactly when it is flagged, and never more than one
      record, however many keywords it contains. */
  lemma OneRecordPerFlaggedLine(lines: seq<string>, j: nat)
    requires j < |lines|
    ensures IsErrorLine(lines[j]) <==>
      exists p :: 0 <= p < |ScanPrefix(lines, |lines|)| && ScanPrefix(lines, |lines|)[p].lineNumber == j + 1
    ensures forall p, q :: 0 <= p < q < |ScanPrefix(lines, |lines|)| ==>
      ScanPrefix(lines, |lines|)[p].lineNumber != ScanPrefix(lines, |lines|)[q].lineNumber
  {
    var recs := ScanPrefix(lines, |lines|);
    ScanPrefixSound(lines, |lines|);
    ScanPrefixOrdered(lines, |lines|);
    if IsErrorLine(lines[j]) {
      RecordPosition(lines, j, |lines|);
      assert recs[|FlaggedIndices(lines, j)|].lineNumber == j + 1;
    } else {
      forall p | 0 <= p < |recs|
        ensures recs[p].lineNumber != j + 1
      {
        assert IsErrorLine(lines[recs[p].lineNumber - 1]);
      }
    }
  }

  /** `error_count` counts every flagged line of the whole text, not only the
      reported ones, and `has_errors` says whether there is any. */
  lemma ErrorCountIsTotal(logContent: string)
    requires logContent != ""
    ensures ErrorPatterns(logContent).Full?
    ensures ErrorPatterns(logContent).errorCount
      == |FlaggedIndices(Split(logContent), |Split(logContent)|)|
    ensures ErrorPatterns(logContent).hasErrors
      <==> exists j :: 0 <= j < |Split(logContent)| && IsErrorLine(Split(logContent)[j])
  {
    var lines := Split(logContent);
    ScanPrefixCount(lines, |lines|);
    if j :| 0 <= j < |lines| && IsErrorLine(lines[j]) {
      assert j in FlaggedIndices(lines, |lines|);
    }
  }

  /** Every reported record belongs to a flagged line: its number lies in
      1..`total_lines`, its content is that line stripped, its windows are the
      line's context, and the records are in strictly increasing line order. */
  lemma ReportedRecordsAreFlaggedLines(logContent: string)
    requires logContent != ""
    ensures var r := ErrorPatterns(logContent);
      var lines := Split(logContent);
      && r.Full?
      && (forall p :: 0 <= p < |r.errorLines| ==>
        var rec := r.errorLines[p];
        && 1 <= rec.lineNumber <= r.totalLines
        && IsErrorLine(lines[rec.lineNumber - 1])
        && rec.content == Strip(lines[rec.lineNumber - 1])
        && rec.contextBefore == ContextBefore(lines, rec.lineNumber - 1)
        && rec.contextAfter == ContextAfter(lines, rec.lineNumber - 1))
      && (forall p, q :: 0 <= p < q < |r.errorLines| ==>
        r.errorLines[p].lineNumber < r.errorLines[q].lineNumber)
  {
    var lines := Split(logContent);
    var all := ScanPrefix(lines, |lines|);
    ScanPrefixSound(lines, |lines|);
    ScanPrefixOrdered(lines, |lines|);
    var reported := ErrorPatterns(logContent).errorLines;
    assert |reported| <= |all|;
    assert forall p :: 0 <= p < |reported| ==> reported[p] == all[p];
  }

  /** The reported records are the first fifteen: a flagged line with fewer
      than fifteen flagged lines before it is reported, at the position that
      count gives. */
  lemma FirstFifteenReported(logContent: string, j: nat)
    requires logContent != ""
    requires j < |Split(logContent)|
    requires IsErrorLine(Split(logContent)[j])
    requires |FlaggedIndices(Split(logContent), j)| < MaxErrorLines
    ensures var r := ErrorPatterns(logContent);
      && r.Full?
      && |FlaggedIndices(Split(logContent), j)| < |r.errorLines|
      && r.errorLines[|FlaggedIndices(Split(logContent), j)|] == RecordAt(Split(logContent), j)
  {
    var lines := Split(logContent);
    RecordPosition(lines, j, |lines|);
  }
}
