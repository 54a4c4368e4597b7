/** Markdown normalization: LF line ends, no NUL characters. */
module Markdown {

  /** `replace("\r\n", "\n")`, left to right without overlaps. */
  function ReplaceCrLf(s: string): string {
    if s == "" then ""
    else if |s| >= 2 && s[0] == '\r' && s[1] == '\n' then "\n" + ReplaceCrLf(s[2..])
    else [s[0]] + ReplaceCrLf(s[1..])
  }

  /** `replace('\r', "\n")`. */
  function ReplaceCr(s: string): (r: string)
    ensures '\r' !in r
  {
    if s == "" then "" else [if s[0] == '\r' then '\n' else s[0]] + ReplaceCr(s[1..])
  }

  /** `replace('\0', "")`. */
  function DropNul(s: string): (r: string)
    ensures '\0' !in r
    ensures forall c :: c in r ==> c in s
  {
    if s == "" then "" else (if s[0] == '\0' then "" else [s[0]]) + DropNul(s[1..])
  }

  function Normalize(s: string): string {
    DropNul(ReplaceCr(ReplaceCrLf(s)))
  }

  predicate IsNormal(s: string) {
    '\r' !in s && '\0' !in s
  }

  lemma NormalizeIsNormal(s: string)
    ensures IsNormal(Normalize(s))
  {
    var t := ReplaceCr(ReplaceCrLf(s));
    assert '\r' !in t;
    assert forall c :: c in DropNul(t) ==> c in t;
  }

  lemma {:induction false} PassesUnchanged(s: string)
    requires IsNormal(s)
    ensures ReplaceCrLf(s) == s && ReplaceCr(s) == s && DropNul(s) == s
  {
    if s == "" {
    } else {
      PassesUnchanged(s[1..]);
    }
  }

  /** The fixed points of normalization are the texts without CR and NUL, and one pass reaches them. */
  lemma NormalizeFixedPoints(s: string)
    ensures Normalize(s) == s <==> IsNormal(s)
    ensures Normalize(Normalize(s)) == Normalize(s)
  {
    NormalizeIsNormal(s);
    PassesUnchanged(Normalize(s));
    if IsNormal(s) {
      PassesUnchanged(s);
    }
  }

  /** Character by character: CR LF and a lone CR each become one LF, NUL goes, and everything else stays. */
  lemma NormalizeHead(s: string)
    ensures s == "" ==> Normalize(s) == ""
    ensures "\r\n" <= s ==> Normalize(s) == "\n" + Normalize(s[2..])
    ensures "\r" <= s && !("\r\n" <= s) ==> Normalize(s) == "\n" + Normalize(s[1..])
    ensures "\0" <= s ==> Normalize(s) == Normalize(s[1..])
    ensures s != "" && s[0] != '\r' && s[0] != '\0' ==> Normalize(s) == [s[0]] + Normalize(s[1..])
  {
    if "\r\n" <= s {
      HeadOf('\n', ReplaceCrLf(s[2..]));
    } else if s != "" {
      HeadOf(s[0], ReplaceCrLf(s[1..]));
    }
  }

  lemma HeadOf(c: char, rest: string)
    ensures ReplaceCr([c] + rest) == [if c == '\r' then '\n' else c] + ReplaceCr(rest)
    ensures var d := if c == '\r' then '\n' else c;
            DropNul(ReplaceCr([c] + rest)) == (if d == '\0' then "" else [d]) + DropNul(ReplaceCr(rest))
  {
    assert ([c] + rest)[1..] == rest;
    assert ([if c == '\r' then '\n' else c] + ReplaceCr(rest))[1..] == ReplaceCr(rest);
  }
}
