/** Strings as Rust's `str` methods see them: White_Space, trimming, splitting and joining. */
module Text {

  /** `char::is_whitespace`: the Unicode White_Space property. */
  predicate IsWhitespace(c: char) {
    || '\U{0009}' <= c <= '\U{000D}'
    || c == ' '
    || c == '\U{0085}'
    || c == '\U{00A0}'
    || c == '\U{1680}'
    || '\U{2000}' <= c <= '\U{200A}'
    || c == '\U{2028}'
    || c == '\U{2029}'
    || c == '\U{202F}'
    || c == '\U{205F}'
    || c == '\U{3000}'
  }

  /** Those are 25 characters. */
  lemma WhitespaceIs(c: char)
    ensures IsWhitespace(c) <==>
            c as int in {0x9, 0xA, 0xB, 0xC, 0xD, 0x20, 0x85, 0xA0, 0x1680, 0x2000, 0x2001, 0x2002, 0x2003, 0x2004, 0x2005,
                         0x2006, 0x2007, 0x2008, 0x2009, 0x200A, 0x2028, 0x2029, 0x202F, 0x205F, 0x3000}
  {
  }

  function TrimStart(s: string): (t: string)
    ensures t == "" || !IsWhitespace(t[0])
  {
    if s != "" && IsWhitespace(s[0]) then TrimStart(s[1..]) else s
  }

  function TrimEnd(s: string): (t: string)
    ensures t <= s
    ensures t == "" || !IsWhitespace(t[|t| - 1])
  {
    if s != "" && IsWhitespace(s[|s| - 1]) then TrimEnd(s[..|s| - 1]) else s
  }

  function Trim(s: string): string {
    TrimEnd(TrimStart(s))
  }

  predicate Blank(s: string) {
    forall i :: 0 <= i < |s| ==> IsWhitespace(s[i])
  }

  /** What is trimmed off is white space. */
  lemma {:induction false} TrimEndTakes(s: string)
    ensures Blank(s[|TrimEnd(s)|..])
  {
    if s == "" || !IsWhitespace(s[|s| - 1]) {
    } else {
      var init, t := s[..|s| - 1], TrimEnd(s);
      TrimEndTakes(init);
      assert s[|t|..] == init[|t|..] + [s[|s| - 1]];
    }
  }

  lemma {:induction false} TrimStartTakes(s: string)
    ensures |TrimStart(s)| <= |s| && TrimStart(s) == s[|s| - |TrimStart(s)|..] && Blank(s[..|s| - |TrimStart(s)|])
  {
    if s == "" || !IsWhitespace(s[0]) {
      assert s[..0] == "";
    } else {
      var t := TrimStart(s);
      TrimStartTakes(s[1..]);
      assert s[..|s| - |t|] == [s[0]] + s[1..][..|s| - 1 - |t|];
    }
  }

  /** Text is its trimmed form between two stretches of white space; only blank text trims to nothing. */
  lemma TrimIs(s: string) returns (front: string, back: string)
    ensures s == front + Trim(s) + back && Blank(front) && Blank(back)
    ensures Trim(s) == "" <==> Blank(s)
    ensures Trim(s) != "" ==> !IsWhitespace(Trim(s)[0]) && !IsWhitespace(Trim(s)[|Trim(s)| - 1])
  {
    var t := TrimStart(s);
    TrimStartTakes(s);
    TrimEndTakes(t);
    front, back := s[..|s| - |t|], t[|TrimEnd(t)|..];
    assert t == TrimEnd(t) + back && s == front + t;
    if Trim(s) != "" {
      assert s[|front|] == Trim(s)[0];
    }
  }

  lemma TrimTwice(s: string)
    ensures Trim(Trim(s)) == Trim(s)
  {
    var t := TrimStart(s);
    var u := TrimEnd(t);
    assert u != "" ==> u[0] == t[0];
    assert TrimStart(u) == u;
    assert TrimEnd(u) == u;
  }

  /** The position of the first `c`, or the length when there is none. */
  function IndexOf(s: string, c: char): (i: nat)
    ensures i <= |s|
    ensures c !in s[..i]
    ensures i < |s| ==> s[i] == c
  {
    if s == "" || s[0] == c then 0
    else
      var i := IndexOf(s[1..], c);
      assert s[..i + 1] == [s[0]] + s[1..][..i];
      i + 1
  }

  lemma FirstOccurrence(a: string, c: char, b: string)
    requires c !in a
    ensures IndexOf(a + [c] + b, c) == |a|
  {
    var s := a + [c] + b;
    assert s[|a|] == c;
    assert forall k :: 0 <= k < |a| ==> s[k] == a[k];
    var i := IndexOf(s, c);
    assert forall k :: 0 <= k < i ==> s[..i][k] == s[k];
  }

  /** A line loses one carriage return that stood before its line feed. */
  function ChompReturn(s: string): string {
    if s != "" && s[|s| - 1] == '\r' then s[..|s| - 1] else s
  }

  /** `str::lines`: a final line feed does not start one more line. */
  function Lines(s: string): seq<string> {
    if s == "" then []
    else
      var i := IndexOf(s, '\n');
      if i == |s| then [s] else [ChompReturn(s[..i])] + Lines(s[i + 1..])
  }

  /** `join("\n")`. */
  function Join(lines: seq<string>): string {
    if lines == [] then ""
    else if |lines| == 1 then lines[0]
    else lines[0] + "\n" + Join(lines[1..])
  }

  /** A line as it stands between line feeds of a normalized text. */
  predicate IsLine(s: string) {
    '\n' !in s && '\r' !in s && '\0' !in s
  }

  predicate AreLines(lines: seq<string>) {
    forall i :: 0 <= i < |lines| ==> IsLine(lines[i])
  }

  lemma {:induction false} LinesOfText(s: string)
    requires '\r' !in s && '\0' !in s
    ensures AreLines(Lines(s))
  {
    if s == "" {
    } else {
      var i := IndexOf(s, '\n');
      if i < |s| {
        LinesOfText(s[i + 1..]);
        assert IsLine(s[..i]);
      } else {
        assert s[..i] == s;
      }
    }
  }

  lemma FirstLine(line: string, rest: string)
    requires IsLine(line)
    ensures Lines(line + "\n" + rest) == [line] + Lines(rest)
  {
    var s := line + ['\n'] + rest;
    FirstOccurrence(line, '\n', rest);
    assert s[..|line|] == line;
    assert s[|line| + 1..] == rest;
  }

  lemma JoinCons(first: string, rest: seq<string>)
    requires rest != []
    ensures Join([first] + rest) + "\n" == first + "\n" + (Join(rest) + "\n")
  {
    assert ([first] + rest)[1..] == rest;
  }

  /** Splitting undoes joining with a final line feed. */
  lemma {:induction false} LinesOfJoin(lines: seq<string>)
    requires lines != [] && AreLines(lines)
    ensures Lines(Join(lines) + "\n") == lines
  {
    if |lines| == 1 {
      FirstLine(lines[0], "");
      assert Join(lines) + "\n" == lines[0] + "\n" + "";
    } else {
      var first, rest := lines[0], lines[1..];
      assert lines == [first] + rest;
      LinesOfJoin(rest);
      JoinCons(first, rest);
      FirstLine(first, Join(rest) + "\n");
    }
  }

  lemma {:induction false} JoinKeepsClean(lines: seq<string>)
    requires AreLines(lines)
    ensures '\r' !in Join(lines) && '\0' !in Join(lines)
  {
    if |lines| <= 1 {
    } else {
      JoinKeepsClean(lines[1..]);
    }
  }

  // ----- the characters a reader sees -----

  /** The characters of `s` that are not white space, in order. */
  function Visible(s: string): string {
    if s == "" then ""
    else (if IsWhitespace(s[0]) then "" else [s[0]]) + Visible(s[1..])
  }

  function VisibleLines(lines: seq<string>): string {
    if lines == [] then "" else Visible(lines[0]) + VisibleLines(lines[1..])
  }

  lemma VisibleCons(s: string, c: char, t: string)
    requires s == [c] + t
    ensures Visible(s) == (if IsWhitespace(c) then "" else [c]) + Visible(t)
  {
    assert s[1..] == t;
  }

  lemma {:induction false} VisibleAppend(a: string, b: string)
    ensures Visible(a + b) == Visible(a) + Visible(b)
  {
    if a == "" {
      assert a + b == b;
    } else {
      var t := a[1..];
      VisibleAppend(t, b);
      VisibleCons(a, a[0], t);
      VisibleCons(a + b, a[0], t + b);
    }
  }

  lemma {:induction false} VisibleTrimEnd(s: string)
    ensures Visible(TrimEnd(s)) == Visible(s)
  {
    if s == "" || !IsWhitespace(s[|s| - 1]) {
    } else {
      VisibleTrimEnd(s[..|s| - 1]);
      VisibleAppend(s[..|s| - 1], [s[|s| - 1]]);
      assert s[..|s| - 1] + [s[|s| - 1]] == s;
    }
  }

  lemma {:induction false} VisibleOfLines(s: string)
    requires '\r' !in s
    ensures VisibleLines(Lines(s)) == Visible(s)
  {
    if s == "" {
    } else {
      var i := IndexOf(s, '\n');
      if i == |s| {
        assert [s][1..] == [];
      } else {
        assert s == s[..i] + "\n" + s[i + 1..];
        VisibleAppend(s[..i] + "\n", s[i + 1..]);
        VisibleAppend(s[..i], "\n");
        VisibleOfLines(s[i + 1..]);
        assert ChompReturn(s[..i]) == s[..i];
        assert Lines(s)[1..] == Lines(s[i + 1..]);
      }
    }
  }

  lemma {:induction false} VisibleOfJoin(lines: seq<string>)
    ensures Visible(Join(lines)) == VisibleLines(lines)
  {
    if |lines| == 1 {
      assert lines[1..] == [];
    } else if |lines| > 1 {
      VisibleOfJoin(lines[1..]);
      VisibleAppend(lines[0] + "\n", Join(lines[1..]));
      VisibleAppend(lines[0], "\n");
    }
  }
}
