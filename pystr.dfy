/** The few Python `str` built-ins the log extractor relies on: `str.isspace`,
    `str.strip()` with no argument, `str.split('\n')` with its inverse
    `'\n'.join`, and the character comparison `re.IGNORECASE` performs against
    a lower-case ASCII pattern letter. Strings are sequences of Unicode scalar
    values; the lone surrogates a Python 3 `str` may also hold are not
    representable, and the extractor treats them like any other non-space,
    uncased character. */
module PyStr {

  /** Python's `str.isspace()` on one character: the ASCII controls TAB..CR and
      FS..US, SPACE, and the Unicode separators Python counts as whitespace. */
  predicate IsSpace(c: char)
  {
    || ('\t' <= c <= '\r')
    || ('\U{1C}' <= c <= '\U{1F}')
    || c == ' '
    || c == '\U{85}'
    || c == '\U{A0}'
    || c == '\U{1680}'
    || ('\U{2000}' <= c <= '\U{200A}')
    || c == '\U{2028}'
    || c == '\U{2029}'
    || c == '\U{202F}'
    || c == '\U{205F}'
    || c == '\U{3000}'
  }

  /** Every character of `s` is whitespace (so `s.strip()` is falsy). */
  predicate IsBlank(s: string)
  {
    forall j :: 0 <= j < |s| ==> IsSpace(s[j])
  }

  /** `s.lstrip()`: `s` without its leading whitespace. */
  function LStrip(s: string): string
  {
    if |s| > 0 && IsSpace(s[0]) then LStrip(s[1..]) else s
  }

  /** `s.rstrip()`: `s` without its trailing whitespace. */
  function RStrip(s: string): string
  {
    if |s| > 0 && IsSpace(s[|s| - 1]) then RStrip(s[..|s| - 1]) else s
  }

  /** `s.strip()`: `s` without its leading and trailing whitespace. What it
      returns is stated by `StripSpec`, `StripEmptyIffBlank` and
      `StripUnique`. */
  function Strip(s: string): string
  {
    RStrip(LStrip(s))
  }

  /** `s.lstrip()` is the suffix of `s` left after a run of whitespace, and it
      does not start with whitespace. */
  lemma {:induction false} LStripSpec(s: string)
    ensures |LStrip(s)| <= |s|
    ensures LStrip(s) == s[|s| - |LStrip(s)|..]
    ensures forall j :: 0 <= j < |s| - |LStrip(s)| ==> IsSpace(s[j])
    ensures LStrip(s) != [] ==> !IsSpace(LStrip(s)[0])
  {
    if |s| > 0 && IsSpace(s[0]) {
      LStripSpec(s[1..]);
      assert forall j :: 1 <= j < |s| ==> s[j] == s[1..][j - 1];
    }
  }

  /** `s.rstrip()` is the prefix of `s` left before a run of whitespace, and it
      does not end with whitespace. */
  lemma {:induction false} RStripSpec(s: string)
    ensures |RStrip(s)| <= |s|
    ensures RStrip(s) == s[..|RStrip(s)|]
    ensures forall j :: |RStrip(s)| <= j < |s| ==> IsSpace(s[j])
    ensures RStrip(s) != [] ==> !IsSpace(RStrip(s)[|RStrip(s)| - 1])
  {
    if |s| > 0 && IsSpace(s[|s| - 1]) {
      RStripSpec(s[..|s| - 1]);
    }
  }

  /** Where `s.strip()` starts in `s`: after the leading whitespace. */
  function StripStart(s: string): (a: nat)
    ensures a <= |s|
  {
    LStripSpec(s);
    |s| - |LStrip(s)|
  }

  /** `s.strip()` is empty exactly when `s` is blank, and never longer than
      `s`. */
  lemma StripEmptyIffBlank(s: string)
    ensures |Strip(s)| <= |s|
    ensures Strip(s) == [] <==> IsBlank(s)
  {
    var t := LStrip(s);
    LStripSpec(s);
    RStripSpec(t);
    if t != [] {
      assert RStrip(t) != [];
      assert !IsSpace(s[|s| - |t|]);
    } else {
      assert IsBlank(s);
    }
  }

  /** `s.strip()` is the slice of `s` that starts at its first non-whitespace
      character and ends at its last one: everything it leaves out is
      whitespace and it neither starts nor ends with whitespace. */
  lemma StripSpec(s: string)
    ensures StripStart(s) + |Strip(s)| <= |s|
    ensures Strip(s) == s[StripStart(s)..StripStart(s) + |Strip(s)|]
    ensures forall j :: 0 <= j < StripStart(s) ==> IsSpace(s[j])
    ensures forall j :: StripStart(s) + |Strip(s)| <= j < |s| ==> IsSpace(s[j])
    ensures Strip(s) != [] ==> !IsSpace(Strip(s)[0]) && !IsSpace(Strip(s)[|Strip(s)| - 1])
  {
    var t := LStrip(s);
    var a := StripStart(s);
    LStripSpec(s);
    RStripSpec(t);
    var r := RStrip(t);
    assert r == s[a..a + |r|];
    forall j | a + |r| <= j < |s|
      ensures IsSpace(s[j])
    {
      assert s[j] == t[j - a];
    }
    if r != [] {
      assert r[0] == t[0];
    }
  }

  /** `str.strip()` is fully determined by its two defining facts: any slice
      `s[a..b]` that has only whitespace outside it and no whitespace at either
      end of it (or that is empty, with all of `s` blank) is `s.strip()`. */
  lemma StripUnique(s: string, a: nat, b: nat)
    requires a <= b <= |s|
    requires forall j :: 0 <= j < a ==> IsSpace(s[j])
    requires forall j :: b <= j < |s| ==> IsSpace(s[j])
    requires a < b ==> !IsSpace(s[a]) && !IsSpace(s[b - 1])
    requires a == b ==> IsBlank(s)
    ensures Strip(s) == s[a..b]
  {
    StripSpec(s);
    StripEmptyIffBlank(s);
    var start := StripStart(s);
    var r := Strip(s);
    if a < b {
      assert start == a;
      assert start + |r| == b;
    }
  }

  /** Stripping twice changes nothing. */
  lemma StripIdempotent(s: string)
    ensures Strip(Strip(s)) == Strip(s)
  {
    var r := Strip(s);
    StripSpec(s);
    if r != [] {
      StripUnique(r, 0, |r|);
    }
  }

  /** Number of occurrences of `c` in `s`. */
  function CountChar(s: string, c: char): nat
  {
    if s == [] then 0 else (if s[0] == c then 1 else 0) + CountChar(s[1..], c)
  }

  /** `s.split('\n')`: the maximal newline-free pieces between newlines. There
      is one more piece than there are newlines; the empty string gives `['']`. */
  function Split(s: string): (lines: seq<string>)
    ensures |lines| == CountChar(s, '\n') + 1
    ensures forall k :: 0 <= k < |lines| ==> '\n' !in lines[k]
  {
    if s == [] then
      [""]
    else
      var rest := Split(s[1..]);
      if s[0] == '\n' then [""] + rest else [[s[0]] + rest[0]] + rest[1..]
  }

  /** `'\n'.join(lines)` for a non-empty list. */
  function Join(lines: seq<string>): string
    requires |lines| > 0
  {
    if |lines| == 1 then lines[0] else lines[0] + "\n" + Join(lines[1..])
  }

  /** Joining the pieces of a split gives back the original text. */
  lemma {:induction false} JoinSplit(s: string)
    ensures Join(Split(s)) == s
  {
    if s != [] {
      var rest := Split(s[1..]);
      JoinSplit(s[1..]);
      if s[0] == '\n' {
        assert Split(s) == [""] + rest;
        assert ([""] + rest)[1..] == rest;
        assert s == "\n" + s[1..];
      } else {
        var lines := [[s[0]] + rest[0]] + rest[1..];
        assert Split(s) == lines;
        if |rest| == 1 {
          assert s == [s[0]] + s[1..];
        } else {
          assert lines[1..] == rest[1..];
          assert Join(rest) == rest[0] + "\n" + Join(rest[1..]);
          assert s == [s[0]] + s[1..];
        }
      }
    }
  }

  /** Splitting text that starts with a newline-free piece `a` glues `a` to the
      first piece of the rest. */
  lemma {:induction false} SplitPrefix(a: string, t: string)
    requires '\n' !in a
    ensures Split(a + t) == [a + Split(t)[0]] + Split(t)[1..]
  {
    if a != [] {
      SplitPrefix(a[1..], t);
      assert (a + t)[1..] == a[1..] + t;
      assert (a + t)[0] == a[0];
      assert [a[0]] + (a[1..] + Split(t)[0]) == a + Split(t)[0];
    } else {
      assert a + t == t;
      assert a + Split(t)[0] == Split(t)[0];
      assert [Split(t)[0]] + Split(t)[1..] == Split(t);
    }
  }

  /** A newline-free first line followed by a newline splits off as the first
      piece. */
  lemma SplitFirstLine(a: string, t: string)
    requires '\n' !in a
    ensures Split(a + "\n" + t) == [a] + Split(t)
  {
    var u := "\n" + t;
    SplitPrefix(a, u);
    assert u[1..] == t;
    assert a + "\n" + t == a + u;
    assert a + "" == a;
  }

  /** Text without a newline is one piece. */
  lemma SplitNoNewline(a: string)
    requires '\n' !in a
    ensures Split(a) == [a]
  {
    SplitPrefix(a, "");
    assert a + "" == a;
  }

  /** Splitting a join of newline-free pieces gives back the pieces. */
  lemma {:induction false} SplitJoin(lines: seq<string>)
    requires |lines| > 0
    requires forall k :: 0 <= k < |lines| ==> '\n' !in lines[k]
    ensures Split(Join(lines)) == lines
  {
    if |lines| == 1 {
      SplitPrefix(lines[0], "");
      assert lines[0] + "" == lines[0];
    } else {
      var tail := Join(lines[1..]);
      SplitJoin(lines[1..]);
      var t := "\n" + tail;
      assert t[1..] == tail;
      assert Split(t) == [""] + lines[1..];
      SplitPrefix(lines[0], t);
      assert lines[0] + "\n" + tail == lines[0] + t;
      assert lines[0] + "" == lines[0];
      assert ([""] + lines[1..])[1..] == lines[1..];
    }
  }

  /** The comparison `re.IGNORECASE` makes between a subject character and a
      lower-case ASCII pattern letter: the character matches exactly when this
      fold of it equals the letter. ASCII capitals fold to their lower case;
      Python's `re` additionally matches U+0130 and U+0131 against `i`, U+017F
      against `s` and U+212A (Kelvin sign) against `k`. */
  function Fold(c: char): char
  {
    if 'A' <= c <= 'Z' then (c as int - 'A' as int + 'a' as int) as char
    else if c == '\U{130}' || c == '\U{131}' then 'i'
    else if c == '\U{17F}' then 's'
    else if c == '\U{212A}' then 'k'
    else c
  }

  /** The case-folded form of a whole line. */
  function Lower(s: string): (r: string)
    ensures |r| == |s|
    ensures forall j :: 0 <= j < |s| ==> r[j] == Fold(s[j])
  {
    seq(|s|, j requires 0 <= j < |s| => Fold(s[j]))
  }

  /** Folding a line twice is folding it once, and a folded line holds no
      ASCII capital. */
  lemma LowerIdempotent(s: string)
    ensures Lower(Lower(s)) == Lower(s)
    ensures forall j :: 0 <= j < |s| ==> !('A' <= Lower(s)[j] <= 'Z')
  {
  }
}
