/** UTF-8: `str::as_bytes` and the strict `String::from_utf8` (section 3 of RFC 3629). */
module Utf8 {
  import opened Domain
  import opened Words

  // ----- encoding -----

  function Tail(n: nat): u8 {
    0x80 + n % 64
  }

  function EncodeChar(c: char): (bytes: Bytes)
    ensures 1 <= |bytes| <= 4
  {
    var n := c as nat;
    if n < 0x80 then [n]
    else if n < 0x800 then [0xC0 + n / 64, Tail(n)]
    else if n < 0x1_0000 then [0xE0 + n / 64 / 64, Tail(n / 64), Tail(n)]
    else [0xF0 + n / 64 / 64 / 64, Tail(n / 64 / 64), Tail(n / 64), Tail(n)]
  }

  function Encode(s: string): Bytes {
    if s == "" then [] else EncodeChar(s[0]) + Encode(s[1..])
  }

  // ----- decoding -----

  predicate IsTail(b: u8) {
    0x80 <= b < 0xC0
  }

  function Joined(high: nat, tail: u8): nat
    requires IsTail(tail)
  {
    64 * high + (tail - 0x80)
  }

  /** The number the first bytes stand for, and how many they are. */
  function FirstScalar(b: Bytes): Option<(nat, nat)>
    requires b != []
  {
    var first: nat := b[0];
    if first < 0x80 then Some((first, 1))
    else if 0xC0 <= first < 0xE0 && |b| >= 2 && IsTail(b[1]) then Some((Joined(first - 0xC0, b[1]), 2))
    else if 0xE0 <= first < 0xF0 && |b| >= 3 && IsTail(b[1]) && IsTail(b[2]) then
      Some((Joined(Joined(first - 0xE0, b[1]), b[2]), 3))
    else if 0xF0 <= first < 0xF8 && |b| >= 4 && IsTail(b[1]) && IsTail(b[2]) && IsTail(b[3]) then
      Some((Joined(Joined(Joined(first - 0xF0, b[1]), b[2]), b[3]), 4))
    else None
  }

  /** A scalar value, in as few bytes as it takes. */
  predicate WellFormed(n: nat, length: nat) {
    && n < 0x11_0000 && !(0xD800 <= n < 0xE000)
    && length == if n < 0x80 then 1 else if n < 0x800 then 2 else if n < 0x1_0000 then 3 else 4
  }

  function Decode(b: Bytes): Option<string> {
    if b == [] then Some("")
    else
      match FirstScalar(b)
      case None => None
      case Some((n, length)) =>
        if length > |b| || !WellFormed(n, length) then None
        else
          match Decode(b[length..])
          case None => None
          case Some(rest) => Some([n as char] + rest)
  }

  // ----- the round trip -----

  lemma JoinedTail(n: nat)
    ensures Joined(n / 64, Tail(n)) == n
  {
  }

  lemma TailJoined(high: nat, tail: u8)
    requires IsTail(tail)
    ensures Joined(high, tail) / 64 == high && Tail(Joined(high, tail)) == tail
  {
  }

  lemma FirstOfEncoded(c: char, rest: Bytes)
    ensures FirstScalar(EncodeChar(c) + rest) == Some((c as nat, |EncodeChar(c)|))
    ensures WellFormed(c as nat, |EncodeChar(c)|)
  {
    JoinedTail(c as nat);
    JoinedTail(c as nat / 64);
    JoinedTail(c as nat / 64 / 64);
  }

  lemma EncodeTwo(n: nat, high: nat, tail: u8)
    requires WellFormed(n, 2) && n / 64 == high && Tail(n) == tail
    ensures EncodeChar(n as char) == [0xC0 + high, tail]
  {
  }

  lemma EncodeThree(n: nat, middle: nat, high: nat, b: u8, c: u8)
    requires WellFormed(n, 3) && n / 64 == middle && Tail(n) == c && middle / 64 == high && Tail(middle) == b
    ensures EncodeChar(n as char) == [0xE0 + high, b, c]
  {
  }

  lemma EncodeFour(n: nat, m: nat, k: nat, high: nat, a: u8, b: u8, c: u8)
    requires WellFormed(n, 4) && n / 64 == m && Tail(n) == c && m / 64 == k && Tail(m) == b && k / 64 == high && Tail(k) == a
    ensures EncodeChar(n as char) == [0xF0 + high, a, b, c]
  {
  }

  lemma EncodedOfFirst(b: Bytes, n: nat, length: nat)
    requires b != [] && FirstScalar(b) == Some((n, length)) && WellFormed(n, length)
    ensures length <= |b| && EncodeChar(n as char) == b[..length]
  {
    if length == 2 {
      TailJoined(b[0] - 0xC0, b[1]);
      EncodeTwo(n, b[0] - 0xC0, b[1]);
    } else if length == 3 {
      var m := Joined(b[0] - 0xE0, b[1]);
      TailJoined(b[0] - 0xE0, b[1]);
      TailJoined(m, b[2]);
      EncodeThree(n, m, b[0] - 0xE0, b[1], b[2]);
    } else if length == 4 {
      var k := Joined(b[0] - 0xF0, b[1]);
      var m := Joined(k, b[2]);
      TailJoined(b[0] - 0xF0, b[1]);
      TailJoined(k, b[2]);
      TailJoined(m, b[3]);
      EncodeFour(n, m, k, b[0] - 0xF0, b[1], b[2], b[3]);
    }
  }

  /** One step of decoding. */
  lemma DecodeStep(b: Bytes, n: nat, length: nat)
    requires b != [] && FirstScalar(b) == Some((n, length)) && WellFormed(n, length) && length <= |b|
    ensures var rest := Decode(b[length..]);
            Decode(b) == if rest.Some? then Some([n as char] + rest.value) else None
  {
  }

  lemma {:induction false} DecodeEncoded(s: string)
    ensures Decode(Encode(s)) == Some(s)
  {
    if s == "" {
    } else {
      var head, rest := EncodeChar(s[0]), Encode(s[1..]);
      FirstOfEncoded(s[0], rest);
      assert (head + rest)[|head|..] == rest;
      DecodeEncoded(s[1..]);
      DecodeStep(head + rest, s[0] as nat, |head|);
      assert s == [s[0]] + s[1..];
    }
  }

  lemma EncodeCons(c: char, rest: string)
    ensures Encode([c] + rest) == EncodeChar(c) + Encode(rest)
  {
    assert ([c] + rest)[1..] == rest;
  }

  lemma {:induction false} EncodeDecoded(b: Bytes)
    requires Decode(b).Some?
    ensures Encode(Decode(b).value) == b
  {
    if b == [] {
    } else {
      var (n, length) := FirstScalar(b).value;
      EncodedOfFirst(b, n, length);
      DecodeStep(b, n, length);
      EncodeDecoded(b[length..]);
      EncodeCons(n as char, Decode(b[length..]).value);
      assert b == b[..length] + b[length..];
    }
  }

  /** Decoding accepts exactly the encodings, and gives back what was encoded. */
  lemma {:induction false} DecodeIff(b: Bytes, s: string)
    ensures Decode(b) == Some(s) <==> b == Encode(s)
  {
    DecodeEncoded(s);
    if Decode(b) == Some(s) {
      EncodeDecoded(b);
    }
  }
}
