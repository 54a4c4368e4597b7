/** Revision etags, `{revision}:{first 16 characters of the content hash}`. */
module ETag {
  import opened Domain
  import opened Text

  datatype ETag = ETag(revision: nat, hashPrefix: string)

  const PREFIX_LENGTH: nat := 16

  // ----- decimal numbers as Rust prints and parses them -----

  predicate IsDigit(c: char) {
    '0' <= c <= '9'
  }

  predicate AllDigits(s: string) {
    forall i :: 0 <= i < |s| ==> IsDigit(s[i])
  }

  function DigitChar(d: nat): (c: char)
    requires d < 10
    ensures IsDigit(c) && DigitValue(c) == d
  {
    '0' + d as char
  }

  function DigitValue(c: char): nat
    requires IsDigit(c)
  {
    (c - '0') as nat
  }

  function Print(n: nat): string {
    if n < 10 then [DigitChar(n)] else Print(n / 10) + [DigitChar(n % 10)]
  }

  function Value(s: string): nat
    requires AllDigits(s)
  {
    if s == "" then 0 else 10 * Value(s[..|s| - 1]) + DigitValue(s[|s| - 1])
  }

  /** `str::parse::<u64>`: an optional plus sign, at least one digit, no overflow. */
  function ParseU64(s: string): Option<nat> {
    var digits := if "+" < s then s[1..] else s;
    if digits != "" && AllDigits(digits) && Value(digits) < U64 then Some(Value(digits)) else None
  }

  lemma {:induction false} PrintRoundTrip(n: nat)
    ensures AllDigits(Print(n)) && Print(n) != "" && Value(Print(n)) == n
  {
    if n < 10 {
      assert Print(n)[..0] == "";
    } else {
      PrintRoundTrip(n / 10);
      assert Print(n)[..|Print(n)| - 1] == Print(n / 10);
    }
  }

  lemma ParsePrinted(n: nat)
    ensures ParseU64(Print(n)) == ParseU64("+" + Print(n)) == if n < 0x1_0000_0000_0000_0000 then Some(n) else None
    ensures ParseU64("").None? && ParseU64("+").None?
  {
    PrintRoundTrip(n);
    assert IsDigit(Print(n)[0]);
    assert ("+" + Print(n))[1..] == Print(n);
  }

  // ----- etag.rs -----

  function Prefix(contentHash: string): string {
    if |contentHash| <= PREFIX_LENGTH then contentHash else contentHash[..PREFIX_LENGTH]
  }

  function Format(revision: nat, contentHash: string): string {
    Print(revision) + ":" + Prefix(contentHash)
  }

  function Parse(etag: string): Option<ETag> {
    var i := IndexOf(etag, ':');
    if i == |etag| then None
    else
      match ParseU64(etag[..i])
      case None => None
      case Some(revision) =>
        if etag[i + 1..] == "" then None else Some(ETag(revision, etag[i + 1..]))
  }

  predicate Matches(etag: string, revision: nat, contentHash: string) {
    match Parse(etag)
    case Some(e) => e.revision == revision && e.hashPrefix <= contentHash && e.hashPrefix != ""
    case None => false
  }

  // ----- what the text form guarantees -----

  /** Printing then parsing gives back the revision and the hash prefix. */
  lemma FormatThenParse(revision: nat, contentHash: string)
    ensures Parse(Format(revision, contentHash)) ==
            if revision < U64 && contentHash != "" then
              Some(ETag(revision, if |contentHash| <= 16 then contentHash else contentHash[..16]))
            else None
  {
    PrintRoundTrip(revision);
    ParsePrinted(revision);
    FirstOccurrence(Print(revision), ':', Prefix(contentHash));
    var s := Format(revision, contentHash);
    assert s[..|Print(revision)|] == Print(revision);
    assert s[|Print(revision)| + 1..] == Prefix(contentHash);
  }

  /** An etag is a decimal number, perhaps with a plus sign, up to the first colon, and a prefix behind it. */
  lemma ParseIff(etag: string, revision: nat, prefix: string)
    ensures Parse(etag) == Some(ETag(revision, prefix)) <==>
            exists number :: ':' !in number && etag == number + ":" + prefix && prefix != ""
                             && ParseU64(number) == Some(revision)
  {
    var i := IndexOf(etag, ':');
    if i < |etag| {
      assert etag == etag[..i] + ":" + etag[i + 1..];
    }
    if number :| ':' !in number && etag == number + ":" + prefix && prefix != "" && ParseU64(number) == Some(revision) {
      FirstOccurrence(number, ':', prefix);
      assert etag[..|number|] == number && etag[|number| + 1..] == prefix;
    }
  }

  /** A stored etag matches a row exactly when the row has that revision and agrees on the hash prefix. */
  lemma FormattedMatchesIff(revision: nat, contentHash: string, revision': nat, contentHash': string)
    ensures Matches(Format(revision, contentHash), revision', contentHash') <==>
            revision < U64 && contentHash != "" && revision == revision' && Prefix(contentHash) <= contentHash'
  {
    FormatThenParse(revision, contentHash);
  }

  /** Two stored etags are equal text only for equal revisions and equal prefixes. */
  lemma FormatInjective(revision: nat, contentHash: string, revision': nat, contentHash': string)
    requires Format(revision, contentHash) == Format(revision', contentHash')
    ensures revision == revision' && Prefix(contentHash) == Prefix(contentHash')
  {
    PrintRoundTrip(revision);
    PrintRoundTrip(revision');
    FirstOccurrence(Print(revision), ':', Prefix(contentHash));
    FirstOccurrence(Print(revision'), ':', Prefix(contentHash'));
    var s := Format(revision, contentHash);
    assert s[..|Print(revision)|] == Print(revision);
    assert s[..|Print(revision')|] == Print(revision');
    assert s[|Print(revision)| + 1..] == Prefix(contentHash);
    assert s[|Print(revision')| + 1..] == Prefix(contentHash');
  }
}
