# Log error-pattern extractor

This project models the log error-pattern extractor of the OpenStack MCP server, `extract_error_patterns`. The extractor prepares a console log for LLM analysis as follows:

- It splits the log text into lines at `'\n'`.
- It flags every line that contains one of seventeen failure keywords. The search ignores case.
- For each flagged line it builds a record with:
  - the line's 1-based number;
  - the line, stripped of surrounding whitespace;
  - the non-blank stripped lines among the two before it and the two after it.
- It returns a dictionary with:
  - `has_errors`;
  - `error_count`, the number of flagged lines;
  - `error_lines`, the first fifteen records;
  - `total_lines`, the number of lines.
- Empty text gets the shorter dictionary `{"has_errors": False, "error_lines": []}`.

The class-based server in `test2.py` carries a verbatim copy of the same code as `OpenStackMCP._extract_error_patterns`.

Modules:

- `PyStr` (`pystr.dfy`) models the Python `str` built-ins the extractor uses:
  - `str.isspace`, with Python's exact whitespace set;
  - `strip()`, as `lstrip` then `rstrip`;
  - `split('\n')`, with its inverse `'\n'.join`;
  - the character comparison `re.IGNORECASE` makes against a lower-case ASCII letter.
- `Indicators` (`indicators.dfy`) holds:
  - the keyword list;
  - `re.search` over their alternation, modelled as a positional search;
  - the proof that this search flags a line exactly when the line's case-folded form contains a keyword.
- `Errors` (`errors.dfy`) holds:
  - the record and result datatypes;
  - the context windows;
  - `ErrorPatterns`, a ghost reference definition of the returned dictionary;
  - the extractor's loop, as the method `ExtractErrorPatterns`, proved to return exactly `ErrorPatterns`;
  - lemmas on what the count, the truncation and the records mean.
- `OpenStackServer` (`openstack_server.dfy`) models the class's copy. It delegates to the same method, so the concept is defined once.
- `Scenarios` (`scenarios.dfy`) works through concrete inputs:
  - the empty text;
  - a keyword in the middle of five lines;
  - blank lines around a match;
  - twenty failing lines.

The code returns the two-key dictionary for empty text, and the model keeps that shape as the `Empty` constructor. It does not normalise it to the four-key shape.

## Model

| member | source | states |
|---|---|---|
| PyStr.IsSpace | openstackmcp/core/errors.py:20-22 | definition: Python's exact `str.isspace` set, i.e. TAB to CR, FS to US, SPACE, U+0085, U+00A0, U+1680, U+2000 to U+200A, U+2028, U+2029, U+202F, U+205F, U+3000 |
| PyStr.Strip | openstackmcp/core/errors.py:20 | definition: `strip()` as `rstrip()` of `lstrip()`, characterized by the lemmas below |
| PyStr.LStripSpec | openstackmcp/core/errors.py:20 | `lstrip()` leaves the suffix after a run of whitespace, and that suffix does not start with whitespace |
| PyStr.RStripSpec | openstackmcp/core/errors.py:20 | `rstrip()` leaves the prefix before a run of whitespace, and that prefix does not end with whitespace |
| PyStr.StripStart | openstackmcp/core/errors.py:20 | the offset where `strip()`'s result starts lies within the string |
| PyStr.StripEmptyIffBlank | openstackmcp/core/errors.py:21-22 | `l.strip()` is falsy exactly when the line is all whitespace, and it is never longer than the line |
| PyStr.StripSpec | openstackmcp/core/errors.py:20 | `strip()` is a slice of the line: only whitespace lies outside it, and it neither starts nor ends with whitespace |
| PyStr.StripUnique | openstackmcp/core/errors.py:20 | any slice with only whitespace outside it and non-whitespace at both ends (or empty, for a blank line) is the `strip()` result |
| PyStr.StripIdempotent | openstackmcp/core/errors.py:20-22 | stripping an already stripped line changes nothing |
| PyStr.Split | openstackmcp/core/errors.py:14 | `split('\n')` gives one more piece than there are newlines, and no piece contains a newline |
| PyStr.JoinSplit | openstackmcp/core/errors.py:14 | joining the pieces of `split('\n')` with newlines gives back the text |
| PyStr.SplitPrefix | openstackmcp/core/errors.py:14 | a newline-free prefix is glued onto the first piece of the rest |
| PyStr.SplitFirstLine | openstackmcp/core/errors.py:14 | a newline-free first line followed by a newline is split off as the first piece |
| PyStr.SplitNoNewline | openstackmcp/core/errors.py:14 | text without a newline is a single piece |
| PyStr.SplitJoin | openstackmcp/core/errors.py:14 | splitting a newline-join of newline-free pieces gives back the pieces |
| PyStr.Fold | openstackmcp/core/errors.py:17 | definition: the `re.IGNORECASE` comparison against a lower-case ASCII letter; `A`-`Z` fold to `a`-`z`, U+0130 and U+0131 to `i`, U+017F to `s`, U+212A to `k`, and every other character to itself |
| PyStr.LowerIdempotent | openstackmcp/core/errors.py:17 | folding a line twice is folding it once, and a folded line has no ASCII capital |
| Indicators.ErrorIndicators | openstackmcp/core/errors.py:6-10 | definition: the seventeen keywords, in source order |
| Indicators.IsErrorLine | openstackmcp/core/errors.py:6-17 | definition: a line is flagged when its folded form contains one of the keywords as a substring |
| Indicators.SearchFrom | openstackmcp/core/errors.py:12-17 | the search from position `j` succeeds exactly when some keyword alternative matches, ignoring case, at some position from `j` on |
| Indicators.MatchesAtIsSlice | openstackmcp/core/errors.py:17 | a keyword matches case-insensitively at `j` exactly when it equals the case-folded slice starting at `j` |
| Indicators.ContainsIndicator | openstackmcp/core/errors.py:17 | the per-line test is true exactly when the line is an error line, i.e. its folded form contains a keyword |
| Indicators.SearchIsErrorLine | openstackmcp/core/errors.py:6-17 | `re.search` over the alternation of the seventeen keywords succeeds exactly on the lines whose folded form contains one of them |
| Indicators.ErrorLineInContext | openstackmcp/core/errors.py:17 | matching is substring-level: text added around a flagged line never unflags it |
| Indicators.FoldedLineFlaggedAlike | openstackmcp/core/errors.py:17 | a line and its folded form are flagged alike |
| Indicators.FlaggedExamples | openstackmcp/core/errors.py:6-17 | "ERROR occurred", "error occurred" and "failover" are flagged |
| Errors.NonBlankStripped | openstackmcp/core/errors.py:21-22 | the list comprehension is no longer than its input and holds no empty string |
| Errors.NonBlankStrippedSpec | openstackmcp/core/errors.py:21-22 | membership: every entry is some line stripped, and every line that strips to something is kept; nothing is dropped iff no line is blank, and then the entries are the stripped lines in order |
| Errors.NonBlankStrippedAppend | openstackmcp/core/errors.py:21-22 | the comprehension distributes over concatenation of its input, so it keeps the lines in order, repeats included |
| Errors.NonBlankStrippedOne | openstackmcp/core/errors.py:21-22 | on one line it gives `[l.strip()]`, or `[]` when the line is blank |
| Errors.WindowOfLines | openstackmcp/core/errors.py:21-22 | the membership facts and the "nothing dropped iff no blank line" equivalence for a window `log_lines[lo:hi]`, in terms of the indices of the whole log |
| Errors.ContextBefore | openstackmcp/core/errors.py:21 | `context_before` has at most two entries, no more than there are lines before, and none empty |
| Errors.ContextBeforeSpec | openstackmcp/core/errors.py:21 | `context_before` is exactly line i-2's stripped text (if i >= 2 and it is not blank) followed by line i-1's (if i >= 1 and it is not blank), so order and repeats are kept; also stated as membership |
| Errors.ContextAfter | openstackmcp/core/errors.py:22 | `context_after` has at most two entries, fewer than the lines from the match on, and none empty |
| Errors.ContextAfterSpec | openstackmcp/core/errors.py:22 | `context_after` is exactly line i+1's stripped text (if it exists and is not blank) followed by line i+2's (likewise), so order and repeats are kept; also stated as membership |
| Errors.RecordAt | openstackmcp/core/errors.py:18-23 | definition: the record dictionary of line i, with `line_number` i+1, the stripped line, and both context lists |
| Errors.ScanPrefix | openstackmcp/core/errors.py:16-24 | definition: the records the loop has collected after visiting the first k lines |
| Errors.ErrorPatterns | openstackmcp/core/errors.py:1-31 | definition: the returned dictionary, the two-key shape for empty text and the four-key shape otherwise, keeping the first 15 records |
| Errors.ExtractErrorPatterns | openstackmcp/core/errors.py:1-31 | the loop returns exactly the reference dictionary: the two-key shape iff the text is empty; `total_lines` is the newline count plus one; `has_errors` iff `error_count > 0`; `error_lines` has at most 15 records, all of them when there are at most 15, exactly 15 otherwise |
| Errors.FlaggedIndicesStep | openstackmcp/core/errors.py:16-17 | visiting one more line adds its index to the flagged set exactly when it is flagged |
| Errors.ScanPrefixCount | openstackmcp/core/errors.py:16-24 | the number of records collected equals the number of flagged lines |
| Errors.ScanPrefixExtends | openstackmcp/core/errors.py:16-24 | scanning further only appends records |
| Errors.ScanPrefixSound | openstackmcp/core/errors.py:16-24 | every collected record belongs to a flagged line within the scanned range, with that line's number, stripped content and context |
| Errors.ScanPrefixOrdered | openstackmcp/core/errors.py:16-24 | records are collected in strictly increasing line order |
| Errors.RecordPosition | openstackmcp/core/errors.py:16-24 | a flagged line's record sits at the position given by the number of flagged lines before it |
| Errors.OneRecordPerFlaggedLine | openstackmcp/core/errors.py:16-24 | a line gets a record iff it is flagged, and no line gets two records |
| Errors.ErrorCountIsTotal | openstackmcp/core/errors.py:26-28 | `error_count` is the number of flagged lines in the whole log, not just the reported ones, and `has_errors` holds iff some line is flagged |
| Errors.ReportedRecordsAreFlaggedLines | openstackmcp/core/errors.py:16-31 | every reported record has a line number within `1..total_lines`, belongs to a flagged line, carries that line stripped and its context windows, and the records are in strictly increasing line order |
| Errors.FirstFifteenReported | openstackmcp/core/errors.py:24-29 | the records reported are the first fifteen: a flagged line with fewer than fifteen flagged lines before it is reported, at the position that count gives |
| OpenStackServer.ExtractErrorPatterns | openstackmcp/test2.py:250-280 | the class's copy returns the same dictionary as the module function, with the same shape, count and truncation guarantees |
| Scenarios.ShortLineNotFlagged | openstackmcp/core/errors.py:6-17 | a line shorter than three characters is never flagged |
| Scenarios.EmptyInput | openstackmcp/core/errors.py:3-4 | empty text gives `{"has_errors": False, "error_lines": []}` |
| Scenarios.BlankContextSplit | openstackmcp/core/errors.py:14 | "a\n\nb\nerror here\n\nc" splits into its six lines |
| Scenarios.BlankContextRecords | openstackmcp/core/errors.py:16-24 | of those six lines only "error here" gets a record |
| Scenarios.BlankContextRecord | openstackmcp/core/errors.py:18-22 | that record is line 4 with context `["b"]` before and `["c"]` after |
| Scenarios.BlankContextDropped | openstackmcp/core/errors.py:1-31 | "a\n\nb\nerror here\n\nc" gives one record, line 4, context `["b"]` / `["c"]`: blank lines are dropped and the window does not reach "a" |
| Scenarios.NotFlaggedWithoutKeyLetters | openstackmcp/core/errors.py:6-17 | every keyword contains one of a, o, r, u, d, so a line with none of them, after folding, is not flagged |
| Scenarios.SplitFiveLines | openstackmcp/core/errors.py:14 | five newline-free lines joined by newlines split back into those five lines |
| Scenarios.RefusedSplit | openstackmcp/core/errors.py:14 | "line1\nconnection refused\nline3\nline4\nline5" splits into its five lines |
| Scenarios.RefusedFlags | openstackmcp/core/errors.py:6-17 | of "line1", "connection refused", "line3", "line4", "line5" only the second is flagged |
| Scenarios.RefusedRecords | openstackmcp/core/errors.py:16-24 | those five lines give exactly one record, the second line's |
| Scenarios.RefusedRecord | openstackmcp/core/errors.py:18-22 | that record is line 2, "connection refused", with `["line1"]` before and `["line3", "line4"]` after |
| Scenarios.ConnectionRefused | openstackmcp/core/errors.py:1-31 | "line1\nconnection refused\nline3\nline4\nline5" gives `has_errors` true, count 1, that one record, and 5 lines |
| Scenarios.AllFlaggedScan | openstackmcp/core/errors.py:16-24 | when every line is flagged, every line gets a record |
| Scenarios.TwentyFailures | openstackmcp/core/errors.py:26-30 | twenty newline-free lines each containing "fail" give `error_count` 20 but only 15 records, with 20 lines |

## Left out

- Regular expressions in general: the pattern is a plain alternation of lower-case ASCII words with no metacharacters, so `re.search` is modelled as a positional case-insensitive keyword search.
- Unicode case folding beyond what `re.IGNORECASE` does against these ASCII letters: the model folds `A`-`Z` plus U+0130, U+0131, U+017F and U+212A, which are the only other characters Python's `re` matches against ASCII letters.
- `None` input: the parameter is typed `str`, so the model takes a string; the falsy-`None` path of `if not log_content` is not modelled.
- `errors.py` uses `re`, `Dict` and `Any` without importing them; the model takes the evidently intended imports as present.
- The no-keyword example "boot ok\nall good\nstartup complete" (error count 0, three lines) is not proved as a concrete scenario; `Scenarios.NotFlaggedWithoutKeyLetters` and `Scenarios.ShortLineNotFlagged` cover other unflagged lines.
- The rest of the OpenStack MCP server is not part of this model: cloud authentication, server listing, console-log retrieval, the LLM-sampling analysis tools and their own ten-record excerpt limit, and the tool registration.
- The Python dictionary is modelled as a datatype with named fields; key order and JSON rendering are not modelled.
