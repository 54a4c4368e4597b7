/** The conservative Markdown formatter behind the `format_memo` tool. */
module Formatter {
  import opened Text
  import opened Markdown

  const FENCES: seq<string> := ["```", "~~~"]

  predicate IsFenceMarker(line: string) {
    FENCES[0] <= TrimStart(line) || FENCES[1] <= TrimStart(line)
  }

  function LeadingHashes(line: string): (n: nat)
    ensures n <= |line|
    ensures forall i :: 0 <= i < n ==> line[i] == '#'
    ensures n < |line| ==> line[n] != '#'
  {
    if line != "" && line[0] == '#' then 1 + LeadingHashes(line[1..]) else 0
  }

  predicate LacksHeadingSpace(line: string) {
    var h := LeadingHashes(line);
    1 <= h <= 6 && h < |line| && !IsWhitespace(line[h])
  }

  function FixHeading(line: string): string {
    var h := LeadingHashes(line);
    if LacksHeadingSpace(line) then line[..h] + " " + line[h..] else line
  }

  /** What the loop carries from line to line. */
  datatype LoopState = LoopState(blankLines: nat, inFence: bool)

  const START := LoopState(0, false)

  /** A line outside a fence, cleaned. */
  function Clean(raw: string): string {
    var line := TrimEnd(raw);
    if IsFenceMarker(line) then line else FixHeading(line)
  }

  /** The lines that one input line adds to the output: itself, its cleaned form, or nothing. */
  function Emit(st: LoopState, raw: string): seq<string> {
    if st.inFence then [raw]
    else if Trim(Clean(raw)) != "" then [Clean(raw)]
    else if st.blankLines == 0 then [""]
    else []
  }

  function Next(st: LoopState, raw: string): LoopState {
    if st.inFence then LoopState(st.blankLines, !IsFenceMarker(raw))
    else LoopState(if Trim(Clean(raw)) == "" then st.blankLines + 1 else 0, IsFenceMarker(TrimEnd(raw)))
  }

  function Scan(st: LoopState, lines: seq<string>): seq<string>
    decreases |lines|
  {
    if lines == [] then [] else Emit(st, lines[0]) + Scan(Next(st, lines[0]), lines[1..])
  }

  function After(st: LoopState, lines: seq<string>): LoopState
    decreases |lines|
  {
    if lines == [] then st else After(Next(st, lines[0]), lines[1..])
  }

  function DropTrailingEmpty(lines: seq<string>): (r: seq<string>)
    ensures r <= lines
    ensures r == [] || r[|r| - 1] != ""
    ensures forall i :: |r| <= i < |lines| ==> lines[i] == ""
  {
    if lines != [] && lines[|lines| - 1] == "" then DropTrailingEmpty(lines[..|lines| - 1]) else lines
  }

  function FormatLines(lines: seq<string>): seq<string> {
    DropTrailingEmpty(Scan(START, lines))
  }

  function Format(markdown: string): string {
    Join(FormatLines(Lines(Normalize(markdown)))) + "\n"
  }

  method FormatMarkdown(markdown: string) returns (formatted: string)
    ensures formatted == Format(markdown)
  {
    var lines := Lines(Normalize(markdown));
    var output: seq<string> := [];
    var blankLines, inFence := 0, false;
    for i := 0 to |lines|
      invariant 0 <= blankLines
      invariant output == Scan(START, lines[..i])
      invariant LoopState(blankLines, inFence) == After(START, lines[..i])
    {
      var rawLine := lines[i];
      ghost var st := LoopState(blankLines, inFence);
      ghost var before := output;
      OneMoreLine(lines, i);
      if inFence {
        output := output + [rawLine];
        if IsFenceMarker(rawLine) {
          inFence := false;
        }
      } else {
        var line := TrimEnd(rawLine);
        if IsFenceMarker(line) {
          inFence := true;
        }
        if !inFence {
          var hashes := LeadingHashes(line);
          if 1 <= hashes <= 6 && hashes < |line| && !IsWhitespace(line[hashes]) {
            line := line[..hashes] + " " + line[hashes..];
          }
        }
        assert line == Clean(rawLine) && inFence == IsFenceMarker(TrimEnd(rawLine));
        if Trim(line) == "" {
          blankLines := blankLines + 1;
          if blankLines == 1 {
            output := output + [""];
          }
        } else {
          blankLines := 0;
          output := output + [line];
        }
      }
      assert output == before + Emit(st, rawLine);
    }
    assert lines[..|lines|] == lines;
    ghost var scanned := output;
    while output != [] && output[|output| - 1] == ""
      invariant DropTrailingEmpty(output) == DropTrailingEmpty(scanned)
    {
      output := output[..|output| - 1];
    }
    assert output == FormatLines(lines);
    formatted := Join(output) + "\n";
  }

  // ----- cleaning one line -----

  lemma TrimBlank(s: string)
    ensures Trim(TrimEnd(s)) == "" <==> TrimEnd(s) == ""
  {
    var t := TrimEnd(s);
    if t != "" {
      TrimStartKeepsLast(t);
    }
  }

  lemma {:induction false} TrimStartKeepsLast(s: string)
    requires s != "" && !IsWhitespace(s[|s| - 1])
    ensures TrimStart(s) != "" && TrimStart(s)[|TrimStart(s)| - 1] == s[|s| - 1]
  {
    if !IsWhitespace(s[0]) {
    } else {
      TrimStartKeepsLast(s[1..]);
    }
  }

  lemma FixHeadingOnce(line: string)
    requires LacksHeadingSpace(line)
    ensures LeadingHashes(FixHeading(line)) == LeadingHashes(line)
    ensures !LacksHeadingSpace(FixHeading(line))
    ensures FixHeading(line)[|FixHeading(line)| - 1] == line[|line| - 1]
    ensures !IsFenceMarker(FixHeading(line))
  {
    var h := LeadingHashes(line);
    var fixed := FixHeading(line);
    assert fixed[h] == ' ';
    assert forall i :: 0 <= i < h ==> fixed[i] == line[i];
    assert fixed[0] == '#';
    assert TrimStart(fixed) == fixed;
  }

  /** Cleaning is idempotent, keeps fence markers fence markers and keeps blank lines blank. */
  lemma CleanTwice(raw: string)
    ensures TrimEnd(Clean(raw)) == Clean(raw)
    ensures Clean(Clean(raw)) == Clean(raw)
    ensures IsFenceMarker(TrimEnd(raw)) <==> IsFenceMarker(Clean(raw))
    ensures Trim(Clean(raw)) == "" <==> Clean(raw) == ""
  {
    var line := TrimEnd(raw);
    TrimBlank(raw);
    if !IsFenceMarker(line) && LacksHeadingSpace(line) {
      FixHeadingOnce(line);
      TrimBlank(Clean(raw));
    }
  }

  // ----- stability -----

  /** Only whether a blank line was just seen matters, not how many. */
  predicate Alike(a: LoopState, b: LoopState) {
    a.inFence == b.inFence && (a.blankLines == 0 <==> b.blankLines == 0)
  }

  lemma ScanOne(st: LoopState, raw: string)
    ensures Scan(st, [raw]) == Emit(st, raw)
    ensures After(st, [raw]) == Next(st, raw)
  {
    assert [raw][1..] == [];
  }

  lemma EmitTwice(a: LoopState, b: LoopState, raw: string)
    requires Alike(a, b)
    ensures Scan(b, Emit(a, raw)) == Emit(a, raw)
    ensures Alike(Next(a, raw), After(b, Emit(a, raw)))
  {
    CleanTwice(raw);
    if Emit(a, raw) != [] {
      ScanOne(b, Emit(a, raw)[0]);
    }
  }

  lemma {:induction false} ScanAppend(st: LoopState, a: seq<string>, b: seq<string>)
    ensures Scan(st, a + b) == Scan(st, a) + Scan(After(st, a), b)
    ensures After(st, a + b) == After(After(st, a), b)
    ensures |Scan(st, a)| <= |a|
    decreases |a|
  {
    if a == [] {
      assert a + b == b;
    } else {
      assert (a + b)[1..] == a[1..] + b;
      ScanAppend(Next(st, a[0]), a[1..], b);
    }
  }

  /** A second scan over the output of a first one changes nothing. */
  lemma {:induction false} ScanTwice(a: LoopState, b: LoopState, lines: seq<string>)
    requires Alike(a, b)
    ensures Scan(b, Scan(a, lines)) == Scan(a, lines)
    ensures Alike(After(a, lines), After(b, Scan(a, lines)))
    decreases |lines|
  {
    if lines == [] {
    } else {
      var e := Emit(a, lines[0]);
      EmitTwice(a, b, lines[0]);
      ScanTwice(Next(a, lines[0]), After(b, e), lines[1..]);
      ScanAppend(b, e, Scan(Next(a, lines[0]), lines[1..]));
    }
  }

  /** A fixed point of the scan stays one when its end is cut off. */
  lemma FixedPointPrefix(a: seq<string>, b: seq<string>)
    requires a <= b && Scan(START, b) == b
    ensures Scan(START, a) == a
  {
    var rest := b[|a|..];
    assert b == a + rest;
    ScanAppend(START, a, rest);
    ScanAppend(After(START, a), rest, []);
  }

  lemma FormatLinesIsFixed(lines: seq<string>)
    ensures Scan(START, FormatLines(lines)) == FormatLines(lines)
    ensures FormatLines(FormatLines(lines)) == FormatLines(lines)
  {
    ScanTwice(START, START, lines);
    FixedPointPrefix(FormatLines(lines), Scan(START, lines));
  }

  lemma FixHeadingIsLine(line: string)
    requires IsLine(line)
    ensures IsLine(FixHeading(line))
  {
    var h := LeadingHashes(line);
    assert forall c :: c in line[..h] || c in line[h..] ==> c in line;
  }

  lemma CleanIsLine(raw: string)
    requires IsLine(raw)
    ensures IsLine(Clean(raw))
  {
    assert TrimEnd(raw) <= raw;
    FixHeadingIsLine(TrimEnd(raw));
  }

  lemma {:induction false} ScanGivesLines(st: LoopState, lines: seq<string>)
    requires AreLines(lines)
    ensures AreLines(Scan(st, lines))
    decreases |lines|
  {
    if lines == [] {
    } else {
      CleanIsLine(lines[0]);
      ScanGivesLines(Next(st, lines[0]), lines[1..]);
    }
  }

  /** The lines a reader of the formatted text sees are the lines the formatter kept. */
  lemma OutputLines(markdown: string)
    ensures AreLines(FormatLines(Lines(Normalize(markdown))))
    ensures Lines(Format(markdown)) ==
            var kept := FormatLines(Lines(Normalize(markdown))); if kept == [] then [""] else kept
  {
    var lines := Lines(Normalize(markdown));
    NormalizeIsNormal(markdown);
    LinesOfText(Normalize(markdown));
    ScanGivesLines(START, lines);
    var kept := FormatLines(lines);
    if kept == [] {
      FirstLine("", "");
      assert Format(markdown) == "" + "\n" + "";
    } else {
      LinesOfJoin(kept);
    }
  }

  lemma OutputIsNormal(markdown: string)
    ensures Normalize(Format(markdown)) == Format(markdown)
  {
    OutputLines(markdown);
    JoinKeepsClean(FormatLines(Lines(Normalize(markdown))));
    NormalizeFixedPoints(Format(markdown));
  }

  /** Formatting a formatted text changes nothing. */
  lemma {:induction false} FormatIsStable(markdown: string)
    ensures Format(Format(markdown)) == Format(markdown)
  {
    OutputIsNormal(markdown);
    OutputLines(markdown);
    var kept := FormatLines(Lines(Normalize(markdown)));
    FormatLinesIsFixed(Lines(Normalize(markdown)));
    if kept == [] {
      assert [""][1..] == [];
      assert Scan(START, [""]) == [""];
      assert DropTrailingEmpty([""]) == [];
    }
  }

  // ----- conservation -----

  lemma VisibleFixHeading(line: string)
    ensures Visible(FixHeading(line)) == Visible(line)
  {
    if LacksHeadingSpace(line) {
      var h := LeadingHashes(line);
      VisibleAppend(line[..h] + " ", line[h..]);
      VisibleAppend(line[..h], " ");
      VisibleAppend(line[..h], line[h..]);
      assert line == line[..h] + line[h..];
    }
  }

  lemma VisibleOne(line: string)
    ensures VisibleLines([line]) == Visible(line)
  {
    assert [line][1..] == [];
  }

  lemma VisibleClean(raw: string)
    ensures Visible(Clean(raw)) == Visible(raw)
  {
    VisibleTrimEnd(raw);
    VisibleFixHeading(TrimEnd(raw));
  }

  lemma VisibleEmit(st: LoopState, raw: string)
    ensures VisibleLines(Emit(st, raw)) == Visible(raw)
  {
    VisibleClean(raw);
    CleanTwice(raw);
    if Emit(st, raw) != [] {
      VisibleOne(Emit(st, raw)[0]);
    }
  }

  lemma {:induction false} VisibleLinesAppend(a: seq<string>, b: seq<string>)
    ensures VisibleLines(a + b) == VisibleLines(a) + VisibleLines(b)
  {
    if a == [] {
      assert a + b == b;
    } else {
      assert (a + b)[1..] == a[1..] + b;
      VisibleLinesAppend(a[1..], b);
    }
  }

  lemma {:induction false} VisibleScan(st: LoopState, lines: seq<string>)
    ensures VisibleLines(Scan(st, lines)) == VisibleLines(lines)
    decreases |lines|
  {
    if lines == [] {
    } else {
      VisibleEmit(st, lines[0]);
      VisibleScan(Next(st, lines[0]), lines[1..]);
      VisibleLinesAppend(Emit(st, lines[0]), Scan(Next(st, lines[0]), lines[1..]));
    }
  }

  lemma {:induction false} VisibleDropTrailing(lines: seq<string>)
    ensures VisibleLines(DropTrailingEmpty(lines)) == VisibleLines(lines)
  {
    if lines == [] || lines[|lines| - 1] != "" {
    } else {
      VisibleDropTrailing(lines[..|lines| - 1]);
      VisibleLinesAppend(lines[..|lines| - 1], [""]);
      assert lines == lines[..|lines| - 1] + [""];
      VisibleOne("");
    }
  }

  /** No visible character is added, lost or moved. */
  lemma FormatConserves(markdown: string)
    ensures Visible(Format(markdown)) == Visible(Normalize(markdown))
  {
    var lines := Lines(Normalize(markdown));
    var kept := FormatLines(lines);
    NormalizeIsNormal(markdown);
    VisibleOfLines(Normalize(markdown));
    VisibleScan(START, lines);
    VisibleDropTrailing(Scan(START, lines));
    VisibleOfJoin(kept);
    VisibleAppend(Join(kept), "\n");
  }

  // ----- fences -----

  /** Line `k` stands inside a fence: an opener before it has not been closed yet. */
  predicate InFence(lines: seq<string>, k: nat)
    requires k <= |lines|
  {
    After(START, lines[..k]).inFence
  }

  /** Where line `k` of the input starts in the output. */
  function OutputIndex(lines: seq<string>, k: nat): nat
    requires k <= |lines|
  {
    |Scan(START, lines[..k])|
  }

  lemma OneMoreLine(lines: seq<string>, k: nat)
    requires k < |lines|
    ensures Scan(START, lines[..k + 1]) == Scan(START, lines[..k]) + Emit(After(START, lines[..k]), lines[k])
    ensures After(START, lines[..k + 1]) == Next(After(START, lines[..k]), lines[k])
  {
    assert lines[..k + 1] == lines[..k] + [lines[k]];
    ScanAppend(START, lines[..k], [lines[k]]);
    ScanOne(After(START, lines[..k]), lines[k]);
  }

  lemma CutAt(lines: seq<string>, k: nat)
    requires k <= |lines|
    ensures Scan(START, lines) == Scan(START, lines[..k]) + Scan(After(START, lines[..k]), lines[k..])
  {
    assert lines == lines[..k] + lines[k..];
    ScanAppend(START, lines[..k], lines[k..]);
  }

  lemma FrontOfFront<T>(all: seq<T>, k: nat, l: nat)
    requires k <= l <= |all|
    ensures all[..l] == all[..k] + all[k..l]
  {
  }

  lemma ScanGrows(a: seq<string>, b: seq<string>)
    ensures |Scan(START, a)| <= |Scan(START, a + b)|
  {
    ScanAppend(START, a, b);
  }

  lemma OutputIndexMonotone(lines: seq<string>, k: nat, l: nat)
    requires k <= l <= |lines|
    ensures OutputIndex(lines, k) <= OutputIndex(lines, l)
  {
    FrontOfFront(lines, k, l);
    ScanGrows(lines[..k], lines[k..l]);
  }

  lemma MarkerIsNotEmpty(line: string)
    requires IsFenceMarker(line)
    ensures line != ""
  {
  }

  /** The position in the output of a line inside a fence, and the fence state there. */
  lemma FencedLineInScan(lines: seq<string>, k: nat)
    requires k < |lines| && InFence(lines, k)
    ensures OutputIndex(lines, k) < |Scan(START, lines)|
    ensures Scan(START, lines)[OutputIndex(lines, k)] == lines[k]
    ensures InFence(Scan(START, lines), OutputIndex(lines, k))
    ensures OutputIndex(lines, k + 1) == OutputIndex(lines, k) + 1
  {
    OneMoreLine(lines, k);
    CutAt(lines, k + 1);
    ScanTwice(START, START, lines[..k]);
    assert Scan(START, lines)[..OutputIndex(lines, k)] == Scan(START, lines[..k]);
  }

  /** Dropping trailing empty lines keeps everything up to a line that is not empty. */
  lemma DropKeepsFront(scan: seq<string>, kept: seq<string>, at: nat, end: nat)
    requires kept == DropTrailingEmpty(scan) && at <= end < |scan| && scan[end] != ""
    ensures at < |kept| && kept[at] == scan[at] && kept[..at] == scan[..at]
  {
  }

  lemma ScanFront(lines: seq<string>, k: nat)
    requires k <= |lines|
    ensures OutputIndex(lines, k) <= |Scan(START, lines)|
    ensures Scan(START, lines)[..OutputIndex(lines, k)] == Scan(START, lines[..k])
  {
    CutAt(lines, k);
  }

  /** Line `k` is written before line `close`. */
  lemma WrittenInOrder(lines: seq<string>, k: nat, close: nat)
    requires k < close < |lines| && InFence(lines, k)
    ensures OutputIndex(lines, k) < OutputIndex(lines, close)
  {
    FencedLineInScan(lines, k);
    OutputIndexMonotone(lines, k + 1, close);
  }

  /** A line inside a fence that is closed is kept. */
  lemma FencedLineKept(lines: seq<string>, kept: seq<string>, k: nat, close: nat, at: nat)
    requires k <= close < |lines| && InFence(lines, k) && InFence(lines, close) && IsFenceMarker(lines[close])
    requires kept == FormatLines(lines) && at == OutputIndex(lines, k)
    ensures at < |kept| && kept[at] == lines[k] && kept[..at] == Scan(START, lines)[..at]
  {
    if k < close {
      WrittenInOrder(lines, k, close);
    }
    FencedLineInScan(lines, k);
    FencedLineInScan(lines, close);
    MarkerIsNotEmpty(lines[close]);
    DropKeepsFront(Scan(START, lines), kept, at, OutputIndex(lines, close));
  }

  lemma ClosedFenceKept(lines: seq<string>, k: nat, close: nat)
    requires k <= close < |lines| && InFence(lines, k) && InFence(lines, close) && IsFenceMarker(lines[close])
    ensures var kept := FormatLines(lines); var at := OutputIndex(lines, k);
            && at < |kept| && kept[at] == lines[k] && kept[..at] == Scan(START, lines[..k])
            && (k < close ==> at < OutputIndex(lines, close))
  {
    if k < close {
      WrittenInOrder(lines, k, close);
    }
    FencedLineKept(lines, FormatLines(lines), k, close, OutputIndex(lines, k));
    ScanFront(lines, k);
  }

  /** From `k` to `close` the lines are all inside one fence. */
  predicate OneFence(lines: seq<string>, k: nat, close: nat)
    requires k <= close < |lines|
    decreases close - k
  {
    InFence(lines, k) && (k < close ==> OneFence(lines, k + 1, close))
  }

  /** Inside one fence the output follows the input line by line. */
  lemma {:induction false} FenceAdvances(lines: seq<string>, k: nat, close: nat, i: nat)
    requires k <= i <= close < |lines| && OneFence(lines, k, close)
    ensures InFence(lines, i) && OutputIndex(lines, i) == OutputIndex(lines, k) + (i - k)
    decreases i - k
  {
    if i == k {
    } else {
      FencedLineInScan(lines, k);
      FenceAdvances(lines, k + 1, close, i);
    }
  }

  /** The line `d` places behind `k` comes out `d` places behind `at`. */
  predicate Copied(output: seq<string>, lines: seq<string>, at: nat, k: nat, d: nat) {
    at + d < |output| && k + d < |lines| && output[at + d] == lines[k + d]
  }

  lemma CopiedAt(lines: seq<string>, kept: seq<string>, k: nat, d: nat, i: nat, close: nat, at: nat, here: nat)
    requires i <= close < |lines| && InFence(lines, i) && InFence(lines, close) && IsFenceMarker(lines[close])
    requires kept == FormatLines(lines) && here == OutputIndex(lines, i) && i == k + d && here == at + d
    ensures Copied(kept, lines, at, k, d)
  {
    FencedLineKept(lines, kept, i, close, here);
  }

  lemma InOneFence(lines: seq<string>, k: nat, i: nat, close: nat, at: nat, here: nat)
    requires k <= i <= close < |lines| && OneFence(lines, k, close)
    requires at == OutputIndex(lines, k) && here == at + (i - k)
    ensures InFence(lines, i) && InFence(lines, close) && here == OutputIndex(lines, i)
  {
    FenceAdvances(lines, k, close, i);
    FenceAdvances(lines, k, close, close);
  }

  /** A block inside one fence is one block of the output. */
  lemma BlockCopied(lines: seq<string>, kept: seq<string>, k: nat, close: nat, at: nat, d: nat, i: nat)
    requires k <= i <= close < |lines| && OneFence(lines, k, close) && IsFenceMarker(lines[close]) && kept == FormatLines(lines)
    requires at == OutputIndex(lines, k) && i == k + d
    ensures Copied(kept, lines, at, k, d)
  {
    InOneFence(lines, k, i, close, at, at + d);
    CopiedAt(lines, kept, k, d, i, close, at, at + d);
  }

  lemma KeptIsOutput(markdown: string, lines: seq<string>)
    requires lines == Lines(Normalize(markdown)) && FormatLines(lines) != []
    ensures Lines(Format(markdown)) == FormatLines(lines)
  {
    OutputLines(markdown);
  }

  lemma KeptInFence(lines: seq<string>, kept: seq<string>, k: nat)
    requires k < |lines| && InFence(lines, k) && OutputIndex(lines, k) < |kept|
    requires kept[..OutputIndex(lines, k)] == Scan(START, lines[..k])
    ensures InFence(kept, OutputIndex(lines, k))
  {
    ScanTwice(START, START, lines[..k]);
  }

  /** Lines inside a fence that is closed further down come out verbatim, inside a fence and in order; the lines of one
      fence come out as one block. */
  lemma ClosedFenceVerbatim(markdown: string, lines: seq<string>, output: seq<string>, k: nat, close: nat, at: nat, end: nat)
    requires lines == Lines(Normalize(markdown)) && output == Lines(Format(markdown))
    requires k <= close < |lines| && InFence(lines, k) && InFence(lines, close) && IsFenceMarker(lines[close])
    requires at == OutputIndex(lines, k) && end == OutputIndex(lines, close)
    ensures at < |output| && output[at] == lines[k] && InFence(output, at)
    ensures k < close ==> at < end
    ensures OneFence(lines, k, close) ==> forall d :: 0 <= d <= close - k ==> Copied(output, lines, at, k, d)
  {
    ClosedFenceKept(lines, k, close);
    KeptIsOutput(markdown, lines);
    KeptInFence(lines, output, k);
    if OneFence(lines, k, close) {
      forall d | 0 <= d <= close - k ensures Copied(output, lines, at, k, d) {
        BlockCopied(lines, output, k, close, at, d, k + d);
      }
    }
  }

  lemma FixedPointHead(st: LoopState, lines: seq<string>)
    requires Scan(st, lines) == lines != []
    ensures Emit(st, lines[0]) == [lines[0]] && Scan(Next(st, lines[0]), lines[1..]) == lines[1..]
  {
    var e, rest := Emit(st, lines[0]), Scan(Next(st, lines[0]), lines[1..]);
    ScanIsShorter(Next(st, lines[0]), lines[1..]);
    HeadAndTail(e, rest, lines);
  }

  lemma {:induction false} ScanIsShorter(st: LoopState, lines: seq<string>)
    ensures |Scan(st, lines)| <= |lines|
    decreases |lines|
  {
    if lines == [] {
    } else {
      ScanIsShorter(Next(st, lines[0]), lines[1..]);
    }
  }

  lemma HeadAndTail<T>(e: seq<T>, rest: seq<T>, all: seq<T>)
    requires e + rest == all && |e| <= 1 && |rest| < |all|
    ensures e == [all[0]] && rest == all[1..]
  {
    assert |e| == 1;
    assert all[0] == e[0] && all[1..] == rest;
  }

  lemma {:induction false} FixedPointEmits(st: LoopState, lines: seq<string>, j: nat)
    requires Scan(st, lines) == lines && j < |lines|
    ensures Emit(After(st, lines[..j]), lines[j]) == [lines[j]]
    decreases |lines|
  {
    FixedPointHead(st, lines);
    if j == 0 {
      assert lines[..0] == [];
    } else {
      FixedPointEmits(Next(st, lines[0]), lines[1..], j - 1);
      AfterCons(st, lines, j);
    }
  }

  lemma AfterCons(st: LoopState, lines: seq<string>, j: nat)
    requires 0 < j <= |lines|
    ensures After(st, lines[..j]) == After(Next(st, lines[0]), lines[1..][..j - 1])
  {
    assert lines[..j][1..] == lines[1..][..j - 1];
  }

  /** Outside fences the output has no trailing white space, no unspaced heading and no two blank lines in a row. */
  lemma OutsideFencesClean(markdown: string, j: nat)
    requires j < |Lines(Format(markdown))| && !InFence(Lines(Format(markdown)), j)
    ensures var output := Lines(Format(markdown));
            && TrimEnd(output[j]) == output[j]
            && (LacksHeadingSpace(output[j]) ==> IsFenceMarker(output[j]))
            && (j + 1 < |output| && output[j] == "" ==> output[j + 1] != "")
  {
    var output := Lines(Format(markdown));
    OutputLines(markdown);
    FormatLinesIsFixed(Lines(Normalize(markdown)));
    if FormatLines(Lines(Normalize(markdown))) == [] {
      assert output == [""];
    } else {
      FixedPointEmits(START, output, j);
      CleanTwice(output[j]);
      if j + 1 < |output| && output[j] == "" {
        FixedPointEmits(START, output, j + 1);
        OneMoreLine(output, j);
      }
    }
  }

  lemma InvisibleTrimsAway(s: string)
    requires Visible(s) == ""
    ensures TrimEnd(s) == ""
  {
    var t := TrimEnd(s);
    VisibleTrimEnd(s);
    if t != "" {
      assert t == t[..|t| - 1] + [t[|t| - 1]];
      VisibleAppend(t[..|t| - 1], [t[|t| - 1]]);
    }
  }

  lemma {:induction false} InvisibleScan(st: LoopState, lines: seq<string>)
    requires !st.inFence && VisibleLines(lines) == ""
    ensures forall i :: 0 <= i < |Scan(st, lines)| ==> Scan(st, lines)[i] == ""
    decreases |lines|
  {
    if lines == [] {
    } else {
      InvisibleTrimsAway(lines[0]);
      assert Clean(lines[0]) == "";
      InvisibleScan(Next(st, lines[0]), lines[1..]);
    }
  }

  lemma NothingKept(markdown: string)
    requires Visible(Normalize(markdown)) == ""
    ensures FormatLines(Lines(Normalize(markdown))) == []
  {
    var lines := Lines(Normalize(markdown));
    NormalizeIsNormal(markdown);
    VisibleOfLines(Normalize(markdown));
    InvisibleScan(START, lines);
  }

  lemma EndingOf(kept: seq<string>, formatted: string, output: seq<string>)
    requires kept == [] || kept[|kept| - 1] != ""
    requires formatted == Join(kept) + "\n" && output == if kept == [] then [""] else kept
    ensures formatted[|formatted| - 1] == '\n' && output != []
    ensures output[|output| - 1] == "" <==> kept == []
    ensures formatted == "\n" <==> kept == []
  {
    if kept == [] {
      assert "" + "\n" == "\n";
    } else {
      assert |Join(kept)| > 0;
    }
  }

  /** The text ends with a line feed after a non-empty last line, unless the input shows nothing at all. */
  lemma FormatEnding(markdown: string)
    ensures var formatted := Format(markdown); var output := Lines(formatted);
            && formatted[|formatted| - 1] == '\n'
            && output != []
            && (output[|output| - 1] == "" <==> formatted == "\n")
            && (formatted == "\n" <==> Visible(Normalize(markdown)) == "")
  {
    var kept := FormatLines(Lines(Normalize(markdown)));
    OutputLines(markdown);
    EndingOf(kept, Format(markdown), Lines(Format(markdown)));
    FormatConserves(markdown);
    if Visible(Normalize(markdown)) == "" {
      NothingKept(markdown);
    }
  }
}
