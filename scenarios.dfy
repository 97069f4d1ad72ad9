/** Worked inputs for the extractor, with the dictionaries it returns. */
module Scenarios {
  import opened PyStr
  import opened Indicators
  import opened Errors

  /** Every keyword has at least three letters, so no line shorter than three
      characters is flagged. */
  lemma ShortLineNotFlagged(line: string)
    requires |line| < 3
    ensures !IsErrorLine(line)
  {
  }

  /** Empty input gives the two-key dictionary. */
  lemma EmptyInput()
    ensures ErrorPatterns("") == Empty
    ensures !ErrorPatterns("").HasErrors() && ErrorPatterns("").ErrorLines() == []
  {
  }

  /** The lines of "a\n\nb\nerror here\n\nc". */
  const BlankContextLines: seq<string> := ["a", "", "b", "error here", "", "c"]

  lemma BlankContextSplit()
    ensures Split("a\n\nb\nerror here\n\nc") == BlankContextLines
  {
    assert Join(BlankContextLines) == "a\n\nb\nerror here\n\nc";
    SplitJoin(BlankContextLines);
  }

  lemma BlankContextRecords()
    ensures ScanPrefix(BlankContextLines, 6) == [RecordAt(BlankContextLines, 3)]
  {
    var lines := BlankContextLines;
    ShortLineNotFlagged("a");
    ShortLineNotFlagged("");
    ShortLineNotFlagged("b");
    ShortLineNotFlagged("c");
    assert IsErrorLine("error here") by {
      assert OccursAt(ErrorIndicators[0], Lower("error here"), 0);
    }
    assert ScanPrefix(lines, 3) == [];
    assert ScanPrefix(lines, 4) == [RecordAt(lines, 3)];
    assert ScanPrefix(lines, 5) == [RecordAt(lines, 3)];
  }

  lemma BlankContextRecord()
    ensures RecordAt(BlankContextLines, 3) == MatchRecord(4, "error here", ["b"], ["c"])
  {
    var lines := BlankContextLines;
    assert Strip("error here") == "error here";
    assert ContextBefore(lines, 3) == ["b"] by {
      assert lines[1..3] == ["", "b"];
      assert Strip("") == "" && Strip("b") == "b";
      assert ["", "b"][1..] == ["b"] && ["b"][1..] == [];
      assert NonBlankStripped(["b"]) == ["b"];
    }
    assert ContextAfter(lines, 3) == ["c"] by {
      assert lines[4..6] == ["", "c"];
      assert Strip("") == "" && Strip("c") == "c";
      assert ["", "c"][1..] == ["c"] && ["c"][1..] == [];
      assert NonBlankStripped(["c"]) == ["c"];
    }
  }

  /** Blank lines around a flagged line are dropped from its context, and the
      window does not reach further back than two lines:
      "a\n\nb\nerror here\n\nc" gives one record, line 4, with context
      ["b"] before and ["c"] after. */
  lemma BlankContextDropped()
    ensures ErrorPatterns("a\n\nb\nerror here\n\nc")
      == Full(true, 1, [MatchRecord(4, "error here", ["b"], ["c"])], 6)
  {
    BlankContextSplit();
    BlankContextRecords();
    BlankContextRecord();
  }

  /** Every keyword contains one of the letters a, o, r, u, d, so a line none
      of whose characters folds to one of them is not flagged. */
  lemma NotFlaggedWithoutKeyLetters(line: string)
    requires forall j :: 0 <= j < |line| ==> Fold(line[j]) !in "aorud"
    ensures !IsErrorLine(line)
  {
    var low := Lower(line);
    forall w, j: nat | 0 <= w < |ErrorIndicators|
      ensures !OccursAt(ErrorIndicators[w], low, j)
    {
      var kw := ErrorIndicators[w];
      assert 'a' in kw || 'o' in kw || 'r' in kw || 'u' in kw || 'd' in kw;
    }
  }

  /** The lines of "line1\nconnection refused\nline3\nline4\nline5". */
  const RefusedLines: seq<string> := ["line1", "connection refused", "line3", "line4", "line5"]

  /** Five newline-free lines joined by newlines split back into those lines. */
  lemma SplitFiveLines(a: string, b: string, c: string, d: string, e: string)
    requires '\n' !in a && '\n' !in b && '\n' !in c && '\n' !in d && '\n' !in e
    ensures Split(a + "\n" + (b + "\n" + (c + "\n" + (d + "\n" + e)))) == [a, b, c, d, e]
  {
    SplitNoNewline(e);
    SplitFirstLine(d, e);
    SplitFirstLine(c, d + "\n" + e);
    SplitFirstLine(b, c + "\n" + (d + "\n" + e));
    SplitFirstLine(a, b + "\n" + (c + "\n" + (d + "\n" + e)));
  }

  lemma RefusedSplit()
    ensures Split("line1\nconnection refused\nline3\nline4\nline5") == RefusedLines
  {
    assert "line1\nconnection refused\nline3\nline4\nline5"
      == "line1" + "\n" + ("connection refused" + "\n" + ("line3" + "\n" + ("line4" + "\n" + "line5")));
    SplitFiveLines("line1", "connection refused", "line3", "line4", "line5");
  }

  /** Only the second of these lines holds a keyword. */
  lemma RefusedFlags()
    ensures IsErrorLine(RefusedLines[1])
    ensures forall j :: 0 <= j < 5 && j != 1 ==> !IsErrorLine(RefusedLines[j])
  {
    NotFlaggedWithoutKeyLetters("line1");
    NotFlaggedWithoutKeyLetters("line3");
    NotFlaggedWithoutKeyLetters("line4");
    NotFlaggedWithoutKeyLetters("line5");
    assert OccursAt(ErrorIndicators[15], Lower("connection refused"), 11);
  }

  lemma RefusedRecords()
    ensures ScanPrefix(RefusedLines, 5) == [RecordAt(RefusedLines, 1)]
  {
    var lines := RefusedLines;
    RefusedFlags();
    assert ScanPrefix(lines, 1) == [];
    assert ScanPrefix(lines, 2) == [RecordAt(lines, 1)];
    assert ScanPrefix(lines, 3) == [RecordAt(lines, 1)];
    assert ScanPrefix(lines, 4) == [RecordAt(lines, 1)];
  }

  lemma RefusedRecord()
    ensures RecordAt(RefusedLines, 1)
      == MatchRecord(2, "connection refused", ["line1"], ["line3", "line4"])
  {
    var lines := RefusedLines;
    assert Strip("connection refused") == "connection refused";
    assert ContextBefore(lines, 1) == ["line1"] by {
      assert lines[0..1] == ["line1"] && ["line1"][1..] == [];
      assert Strip("line1") == "line1";
    }
    assert ContextAfter(lines, 1) == ["line3", "line4"] by {
      assert lines[2..4] == ["line3", "line4"];
      assert ["line3", "line4"][1..] == ["line4"] && ["line4"][1..] == [];
      assert Strip("line3") == "line3" && Strip("line4") == "line4";
      assert NonBlankStripped(["line4"]) == ["line4"];
    }
  }

  /** A keyword in the middle of the text:
      "line1\nconnection refused\nline3\nline4\nline5" gives one record, line
      2, with the one line before it and the two lines after it as context. */
  lemma ConnectionRefused()
    ensures ErrorPatterns("line1\nconnection refused\nline3\nline4\nline5")
      == Full(true, 1, [MatchRecord(2, "connection refused", ["line1"], ["line3", "line4"])], 5)
  {
    RefusedSplit();
    RefusedRecords();
    RefusedRecord();
  }

  /** When every line is flagged, every line gets a record. */
  lemma {:induction false} AllFlaggedScan(lines: seq<string>, k: nat)
    requires k <= |lines|
    requires forall j :: 0 <= j < |lines| ==> IsErrorLine(lines[j])
    ensures |ScanPrefix(lines, k)| == k
  {
    if k > 0 {
      AllFlaggedScan(lines, k - 1);
    }
  }

  /** More matches than are reported: twenty lines that each contain "fail"
      give an error count of 20 but only 15 records. */
  lemma TwentyFailures(lines: seq<string>)
    requires |lines| == 20
    requires forall j :: 0 <= j < 20 ==> '\n' !in lines[j] && IsSubstring("fail", Lower(lines[j]))
    ensures var r := ErrorPatterns(Join(lines));
      && r.Full?
      && r.hasErrors
      && r.errorCount == 20
      && |r.errorLines| == 15
      && r.totalLines == 20
  {
    SplitJoin(lines);
    assert Join(lines) != "";
    forall j | 0 <= j < 20
      ensures IsErrorLine(lines[j])
    {
      assert IsSubstring(ErrorIndicators[1], Lower(lines[j]));
    }
    AllFlaggedScan(lines, 20);
  }
}
