/** What the formatter makes of every line, said without its own helpers. */
module FormatterLaws {
  import opened Text
  import opened Markdown
  import opened Formatter

  // ----- line by line -----

  /** Three backticks or three tildes after white space. */
  predicate MarkerAt(line: string, k: nat) {
    k + 3 <= |line| && Blank(line[..k]) && (line[k..k + 3] == "```" || line[k..k + 3] == "~~~")
  }

  ghost predicate Marker(line: string) {
    exists k: nat :: MarkerAt(line, k)
  }

  /** One to six hashes with a visible character right behind them. */
  predicate TightHeading(line: string, h: nat) {
    && 1 <= h <= 6 && h < |line|
    && (forall i :: 0 <= i < h ==> line[i] == '#')
    && line[h] != '#' && !IsWhitespace(line[h])
  }

  lemma BlankFront(s: string, n: nat)
    requires n <= |s|
    ensures Blank(s[..n]) <==> forall i :: 0 <= i < n ==> IsWhitespace(s[i])
  {
    assert forall i :: 0 <= i < n ==> s[..n][i] == s[i];
  }

  lemma BlankBack(s: string, n: nat)
    requires n <= |s|
    ensures Blank(s[n..]) <==> forall i :: n <= i < |s| ==> IsWhitespace(s[i])
  {
    var back := s[n..];
    assert forall i :: n <= i < |s| ==> s[i] == back[i - n];
  }

  /** There is only one first visible character. */
  lemma FirstVisible(s: string, n: nat, k: nat)
    requires n < |s| && k < |s| && Blank(s[..n]) && Blank(s[..k]) && !IsWhitespace(s[n]) && !IsWhitespace(s[k])
    ensures n == k
  {
    BlankFront(s, n);
    BlankFront(s, k);
  }

  lemma MarkerStarts(line: string, k: nat)
    requires MarkerAt(line, k)
    ensures !IsWhitespace(line[k]) && !IsWhitespace(line[k + 2])
  {
    assert line[k] == line[k..k + 3][0] && line[k + 2] == line[k..k + 3][2];
  }

  lemma MarkerIff(line: string)
    ensures IsFenceMarker(line) <==> Marker(line)
  {
    var t := TrimStart(line);
    var n := |line| - |t|;
    TrimStartTakes(line);
    if IsFenceMarker(line) {
      assert t[..3] == line[n..n + 3];
      assert MarkerAt(line, n);
    }
    if k: nat :| MarkerAt(line, k) {
      MarkerStarts(line, k);
      NotAllTrimmed(line, k);
      FirstVisible(line, n, k);
      assert t[..3] == line[k..k + 3];
    }
  }

  lemma NotAllTrimmed(line: string, k: nat)
    requires k < |line| && !IsWhitespace(line[k])
    ensures TrimStart(line) != "" && k < |TrimEnd(line)|
  {
    TrimStartTakes(line);
    BlankFront(line, |line| - |TrimStart(line)|);
    TrimEndTakes(line);
    BlankBack(line, |TrimEnd(line)|);
  }

  lemma MarkerAfterTrim(raw: string)
    ensures Marker(TrimEnd(raw)) <==> Marker(raw)
  {
    var t := TrimEnd(raw);
    if k: nat :| MarkerAt(t, k) {
      assert raw[..k] == t[..k] && raw[k..k + 3] == t[k..k + 3];
      assert MarkerAt(raw, k);
    }
    if k: nat :| MarkerAt(raw, k) {
      MarkerStarts(raw, k);
      NotAllTrimmed(raw, k + 2);
      assert raw[..k] == t[..k] && raw[k..k + 3] == t[k..k + 3];
      assert MarkerAt(t, k);
    }
  }

  lemma TightIff(line: string, h: nat)
    ensures TightHeading(line, h) <==> LacksHeadingSpace(line) && h == LeadingHashes(line)
  {
    var n := LeadingHashes(line);
    if TightHeading(line, h) {
      assert n <= h && h <= n;
    }
  }

  /** What a line outside fences becomes: its trailing white space goes, and a tight heading gets one space. */
  ghost predicate Formatted(raw: string, out: string) {
    var line := TrimEnd(raw);
    && (forall h: nat :: TightHeading(line, h) && !Marker(raw) ==> out == line[..h] + " " + line[h..])
    && (Marker(raw) || (forall h: nat :: !TightHeading(line, h)) ==> out == line)
  }

  lemma CleanIs(raw: string)
    ensures Formatted(raw, Clean(raw))
  {
    var line := TrimEnd(raw);
    MarkerIff(line);
    MarkerAfterTrim(raw);
    forall h: nat ensures TightHeading(line, h) <==> LacksHeadingSpace(line) && h == LeadingHashes(line) {
      TightIff(line, h);
    }
    if LacksHeadingSpace(line) {
      assert TightHeading(line, LeadingHashes(line));
    }
  }

  lemma {:induction false} VisibleIff(s: string)
    ensures Visible(s) == "" <==> Blank(s)
  {
    if s == "" {
    } else {
      VisibleIff(s[1..]);
      assert Blank(s) <==> IsWhitespace(s[0]) && Blank(s[1..]) by {
        assert forall i :: 0 < i < |s| ==> s[i] == s[1..][i - 1];
      }
    }
  }

  lemma CleanBlankIff(raw: string)
    ensures Trim(Clean(raw)) == "" <==> Blank(raw)
  {
    var _, _ := TrimIs(Clean(raw));
    VisibleClean(raw);
    VisibleIff(raw);
    VisibleIff(Clean(raw));
  }

  // ----- fences -----

  /** A text starts outside fences, and every marker line, however far indented, opens or closes one. */
  lemma FencesToggle(lines: seq<string>, k: nat)
    requires k < |lines|
    ensures !InFence(lines, 0)
    ensures InFence(lines, k + 1) <==> InFence(lines, k) != Marker(lines[k])
  {
    assert lines[..0] == [];
    OneMoreLine(lines, k);
    MarkerIff(lines[k]);
    MarkerIff(TrimEnd(lines[k]));
    MarkerAfterTrim(lines[k]);
  }

  // ----- positions -----

  /** Visible lines and lines inside fences take one line of the output each. */
  lemma OneLineEach(lines: seq<string>, k: nat)
    requires k < |lines| && (InFence(lines, k) || !Blank(lines[k]))
    ensures OutputIndex(lines, 0) == 0 && OutputIndex(lines, k + 1) == OutputIndex(lines, k) + 1
    ensures InFence(lines, k) ==> Scan(START, lines[..k + 1])[OutputIndex(lines, k)] == lines[k]
    ensures !InFence(lines, k) ==> Formatted(lines[k], Scan(START, lines[..k + 1])[OutputIndex(lines, k)])
  {
    assert lines[..0] == [];
    OneMoreLine(lines, k);
    CleanBlankIff(lines[k]);
    CleanIs(lines[k]);
  }

  /** Whether a blank line at `k` would be the first of its run. */
  predicate Fresh(lines: seq<string>, k: nat)
    requires k <= |lines|
  {
    k == 0 || InFence(lines, k - 1) || !Blank(lines[k - 1])
  }

  lemma {:induction false} CounterIs(lines: seq<string>, k: nat)
    requires k <= |lines|
    ensures InFence(lines, k) ==> After(START, lines[..k]).blankLines == 0
    ensures After(START, lines[..k]).blankLines == 0 <==> Fresh(lines, k)
  {
    if k == 0 {
      assert lines[..0] == [];
    } else {
      CounterIs(lines, k - 1);
      OneMoreLine(lines, k - 1);
      CleanBlankIff(lines[k - 1]);
      MarkerIff(TrimEnd(lines[k - 1]));
      MarkerAfterTrim(lines[k - 1]);
      MarkerNotBlank(lines[k - 1]);
    }
  }

  lemma MarkerNotBlank(line: string)
    ensures !(Marker(line) && Blank(line))
  {
    if k: nat :| MarkerAt(line, k) {
      MarkerStarts(line, k);
    }
  }

  predicate AllBlank(lines: seq<string>) {
    forall i :: 0 <= i < |lines| ==> Blank(lines[i])
  }

  lemma BlankStep(st: LoopState, raw: string)
    requires !st.inFence && Blank(raw)
    ensures Emit(st, raw) == (if st.blankLines == 0 then [""] else []) && Next(st, raw) == LoopState(st.blankLines + 1, false)
  {
    CleanBlankIff(raw);
    MarkerNotBlank(raw);
    MarkerIff(TrimEnd(raw));
    MarkerAfterTrim(raw);
  }

  /** A run of blank lines outside fences adds one empty line if it is the first, and none otherwise. */
  lemma {:induction false} BlankScan(st: LoopState, blanks: seq<string>)
    requires !st.inFence && AllBlank(blanks)
    ensures Scan(st, blanks) == if blanks != [] && st.blankLines == 0 then [""] else []
    ensures After(st, blanks) == LoopState(st.blankLines + |blanks|, false)
    decreases |blanks|
  {
    if blanks == [] {
    } else {
      BlankStep(st, blanks[0]);
      BlankScan(Next(st, blanks[0]), blanks[1..]);
    }
  }

  /** A run of blank lines outside fences takes exactly one line of the output, an empty one. */
  lemma BlankRun(lines: seq<string>, i: nat, j: nat, front: seq<string>)
    requires i < j <= |lines| && !InFence(lines, i) && Fresh(lines, i) && AllBlank(lines[i..j])
    requires front == Scan(START, lines[..i])
    ensures !InFence(lines, j) && Scan(START, lines[..j]) == front + [""]
  {
    CounterIs(lines, i);
    BlankScan(After(START, lines[..i]), lines[i..j]);
    FrontOfFront(lines, i, j);
    ScanAppend(START, lines[..i], lines[i..j]);
  }

  // ----- the output -----

  /** What is written by the first lines is the front of what is written by all, and of the output up to a line that is
      not empty. */
  lemma WrittenIsKept(markdown: string, lines: seq<string>, output: seq<string>, k: nat, at: nat, end: nat)
    requires lines == Lines(Normalize(markdown)) && output == Lines(Format(markdown)) && k <= |lines|
    requires at <= end < |Scan(START, lines[..k])| && Scan(START, lines[..k])[end] != ""
    ensures at < |output| && output[at] == Scan(START, lines[..k])[at]
  {
    CutAt(lines, k);
    DropKeepsFront(Scan(START, lines), FormatLines(lines), at, end);
    KeptIsOutput(markdown, lines);
  }

  lemma FormattedNotEmpty(raw: string, out: string)
    requires Formatted(raw, out) && !Blank(raw)
    ensures out != ""
  {
    TrimEndTakes(raw);
    BlankBack(raw, |TrimEnd(raw)|);
  }

  lemma VisibleWritten(lines: seq<string>, k: nat) returns (out: string)
    requires k < |lines| && !InFence(lines, k) && !Blank(lines[k])
    ensures Formatted(lines[k], out) && out != "" && Scan(START, lines[..k + 1]) == Scan(START, lines[..k]) + [out]
  {
    OneMoreLine(lines, k);
    CleanBlankIff(lines[k]);
    CleanIs(lines[k]);
    out := Clean(lines[k]);
    FormattedNotEmpty(lines[k], out);
  }

  /** A visible line outside fences comes out with its indentation, without its trailing white space, and with a space
      behind its hashes if it is a tight heading; the next line comes out right behind it. */
  lemma VisibleLine(markdown: string, lines: seq<string>, output: seq<string>, k: nat, at: nat)
    requires lines == Lines(Normalize(markdown)) && output == Lines(Format(markdown))
    requires k < |lines| && !InFence(lines, k) && !Blank(lines[k]) && at == OutputIndex(lines, k)
    ensures at < |output| && Formatted(lines[k], output[at]) && OutputIndex(lines, k + 1) == at + 1
  {
    var out := VisibleWritten(lines, k);
    WrittenIsKept(markdown, lines, output, k + 1, at, at);
  }

  /** The blank lines of a run with a visible line behind it come out as exactly one empty line. */
  lemma BlankRunIsOneLine(markdown: string, lines: seq<string>, output: seq<string>, i: nat, j: nat, at: nat)
    requires lines == Lines(Normalize(markdown)) && output == Lines(Format(markdown))
    requires i < j < |lines| && !InFence(lines, i) && Fresh(lines, i) && at == OutputIndex(lines, i)
    requires AllBlank(lines[i..j]) && !Blank(lines[j])
    ensures at < |output| && output[at] == "" && OutputIndex(lines, j) == at + 1
  {
    var front := Scan(START, lines[..i]);
    BlankRun(lines, i, j, front);
    var out := VisibleWritten(lines, j);
    OneEmpty(markdown, lines, output, j, front, out);
  }

  lemma OneEmpty(markdown: string, lines: seq<string>, output: seq<string>, j: nat, front: seq<string>, out: string)
    requires lines == Lines(Normalize(markdown)) && output == Lines(Format(markdown)) && j < |lines| && out != ""
    requires Scan(START, lines[..j + 1]) == front + [""] + [out]
    ensures |front| < |output| && output[|front|] == ""
  {
    WrittenIsKept(markdown, lines, output, j + 1, |front|, |front| + 1);
  }
}
