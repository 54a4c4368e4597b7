/** The CRC-32 of the export archive: the loop, the polynomial it divides by, and what it detects. */
module Crc32 {
  import opened Domain
  import opened Gf2
  import opened Words

  const POLYNOMIAL: u32 := 0xEDB8_8320

  /** One turn of the inner loop: shift, and subtract the polynomial when a one falls out. */
  function Step(crc: u32): u32 {
    if crc % 2 == 1 then Xor(crc / 2, POLYNOMIAL) else crc / 2
  }

  function Steps(crc: u32, n: nat): u32
    decreases n, crc
  {
    if n == 0 then crc else Steps(Step(crc), n - 1)
  }

  /** The register after feeding `data`. */
  function Feed(crc: u32, data: Bytes): u32
    decreases |data|
  {
    if data == [] then crc else Feed(Steps(Xor(crc, data[0]), 8), data[1..])
  }

  function Crc(data: Bytes): u32 {
    Not(Feed(MAX32, data))
  }

  lemma MaskedStep(crc: u32)
    ensures Xor(crc / 2, And(POLYNOMIAL, WrappingAdd(Not(And(crc, 1)), 1))) == Step(crc)
  {
    assert AndNat(crc / 2, 0) == 0;
    assert And(crc, 1) == crc % 2;
    Masked(POLYNOMIAL, crc % 2);
  }

  lemma Masked(p: u32, bit: u32)
    requires bit < 2
    ensures And(p, WrappingAdd(Not(bit), 1)) == if bit == 1 then p else 0
  {
    Pow2Is32();
    AndWithOnes(p, 32);
  }

  lemma {:induction false} StepsLast(crc: u32, n: nat)
    ensures Steps(crc, n + 1) == Step(Steps(crc, n))
    decreases n
  {
    if n == 0 {
    } else {
      StepsLast(Step(crc), n - 1);
    }
  }

  lemma {:induction false} FeedLast(crc: u32, a: Bytes, b: u8)
    ensures Feed(crc, a + [b]) == Steps(Xor(Feed(crc, a), b), 8)
    decreases |a|
  {
    if a == [] {
      assert (a + [b])[1..] == [];
    } else {
      assert (a + [b])[1..] == a[1..] + [b];
      FeedLast(Steps(Xor(crc, a[0]), 8), a[1..], b);
    }
  }

  /** One turn of the inner loop, as the source writes it. */
  lemma NextStep(mixed: u32, crc: u32, k: nat)
    requires crc == Steps(mixed, k)
    ensures Xor(crc / 2, And(POLYNOMIAL, WrappingAdd(Not(And(crc, 1)), 1))) == Steps(mixed, k + 1)
  {
    MaskedStep(crc);
    StepsLast(mixed, k);
  }

  lemma NextByte(data: Bytes, i: nat)
    requires i < |data|
    ensures Steps(Xor(Feed(MAX32, data[..i]), data[i]), 8) == Feed(MAX32, data[..i + 1])
  {
    var front, byte := data[..i], data[i];
    assert data[..i + 1] == front + [byte];
    FeedLast(MAX32, front, byte);
  }

  method ComputeCrc(data: Bytes) returns (r: u32)
    ensures r == Crc(data)
  {
    var crc := MAX32;
    for i := 0 to |data|
      invariant crc == Feed(MAX32, data[..i])
    {
      crc := Xor(crc, data[i]);
      ghost var mixed := crc;
      for k := 0 to 8
        invariant crc == Steps(mixed, k)
      {
        var mask := WrappingAdd(Not(And(crc, 1)), 1);
        NextStep(mixed, crc, k);
        crc := Xor(crc / 2, And(POLYNOMIAL, mask));
      }
      NextByte(data, i);
    }
    assert data[..|data|] == data;
    r := Not(crc);
  }

  // ----- the register is a polynomial -----

  function Reg(x: u32): (p: Poly)
    ensures |p| == 32
  {
    Low(x, 32)
  }

  /** One more hexadecimal digit `d` behind `high` is four more coefficients. */
  lemma NibbleIsCoefficients(x: nat, high: nat, d: nat, e: set<nat>, n: nat)
    requires x == 16 * high + d && d < 16 && Low(high, n) == Coefficients(e, n)
    requires d % 2 == 1 <==> n + 3 in e
    requires d / 2 % 2 == 1 <==> n + 2 in e
    requires d / 4 % 2 == 1 <==> n + 1 in e
    requires d / 8 % 2 == 1 <==> n in e
    ensures Low(x, n + 4) == Coefficients(e, n + 4)
  {
    var h1 := 2 * high + d / 8;
    var h2 := 2 * h1 + d / 4 % 2;
    var h3 := 2 * h2 + d / 2 % 2;
    BitIsCoefficient(h1, high, d / 8, e, n);
    BitIsCoefficient(h2, h1, d / 4 % 2, e, n + 1);
    BitIsCoefficient(h3, h2, d / 2 % 2, e, n + 2);
    BitIsCoefficient(x, h3, d % 2, e, n + 3);
  }

  lemma BitIsCoefficient(x: nat, high: nat, bit: nat, e: set<nat>, n: nat)
    requires x == 2 * high + bit && bit < 2 && Low(high, n) == Coefficients(e, n)
    requires bit == 1 <==> n in e
    ensures Low(x, n + 1) == Coefficients(e, n + 1)
  {
  }

  lemma UpperHalf(a: nat, b: nat, c: nat, x: nat, e: set<nat>)
    requires a == 0xE && b == 0xED && c == 0xEDB && x == 0xEDB8 && e == EXPONENTS
    ensures Low(x, 16) == Coefficients(e, 16)
  {
    NibbleIsCoefficients(a, 0, 0xE, e, 0);
    NibbleIsCoefficients(b, a, 0xD, e, 4);
    NibbleIsCoefficients(c, b, 0xB, e, 8);
    NibbleIsCoefficients(x, c, 0x8, e, 12);
  }

  lemma LowerHalf(h: nat, a: nat, b: nat, c: nat, x: nat, e: set<nat>)
    requires h == 0xEDB8 && a == 0xE_DB88 && b == 0xED_B883 && c == 0xEDB_8832 && x == 0xEDB8_8320
    requires e == EXPONENTS && Low(h, 16) == Coefficients(e, 16)
    ensures Low(x, 32) == Coefficients(e, 32)
  {
    NibbleIsCoefficients(a, h, 0x8, e, 16);
    NibbleIsCoefficients(b, a, 0x3, e, 20);
    NibbleIsCoefficients(c, b, 0x2, e, 24);
    NibbleIsCoefficients(x, c, 0x0, e, 28);
  }

  /** The constant of the loop is the generator, lowest bit first. */
  lemma PolynomialBits()
    ensures Reg(POLYNOMIAL) == GENERATOR
  {
    UpperHalf(0xE, 0xED, 0xEDB, 0xEDB8, EXPONENTS);
    LowerHalf(0xEDB8, 0xE_DB88, 0xED_B883, 0xEDB_8832, POLYNOMIAL, EXPONENTS);
  }

  lemma StepIsShift(x: u32)
    ensures Reg(Step(x)) == Shift(Reg(x))
  {
    Pow2Is32();
    assert Pow2(32) == 2 * Pow2(31);
    LowPadded(x / 2, 31, 1);
    assert Reg(x / 2) == Reg(x)[1..] + [false];
    if x % 2 == 1 {
      XorBits(x / 2, POLYNOMIAL, 32);
      PolynomialBits();
    }
  }

  lemma {:induction false} StepsAreShifts(x: u32, n: nat)
    ensures Reg(Steps(x, n)) == Shifts(Reg(x), n)
    decreases n
  {
    if n == 0 {
    } else {
      StepIsShift(x);
      StepsAreShifts(Step(x), n - 1);
    }
  }

  /** The message as a polynomial: the first byte's lowest bit is the highest coefficient. */
  function MessageBits(data: Bytes): (p: Poly)
    ensures |p| == 8 * |data|
  {
    if data == [] then [] else Low(data[0], 8) + MessageBits(data[1..])
  }

  /** Mixing a byte into the register moves its coefficients from the message to the register. */
  lemma MixByte(x: u32, b: u8, rest: Poly)
    requires |rest| >= 32
    ensures AddTop(Low(b, 8) + rest, Reg(x)) == AddTop(Zeros(8) + rest, Reg(Xor(x, b)))
  {
    Pow2Is32();
    XorBits(x, b, 32);
    LowPadded(b, 8, 24);
    MoveBits(Low(b, 8), rest, Reg(x));
  }

  lemma MoveBits(byte: Poly, rest: Poly, r: Poly)
    requires |byte| == 8 && |r| == 32 <= |rest|
    ensures AddTop(byte + rest, r) == AddTop(Zeros(8) + rest, Add(r, byte + Zeros(24)))
  {
    var left, right := AddTop(byte + rest, r), AddTop(Zeros(8) + rest, Add(r, byte + Zeros(24)));
    forall i | 0 <= i < |left| ensures left[i] == right[i] {
      if i < 8 {
        assert (byte + rest)[i] == byte[i] && (byte + Zeros(24))[i] == byte[i];
      } else {
        assert (byte + rest)[i] == rest[i - 8] == (Zeros(8) + rest)[i];
      }
    }
  }

  /** Feeding bytes divides the rest of the message, with the register added on top. */
  lemma {:induction false} FeedDivides(x: u32, data: Bytes)
    ensures Reg(Feed(x, data)) == Mod(AddTop(MessageBits(data) + Zeros(32), Reg(x)))
    decreases |data|
  {
    if data == [] {
      assert MessageBits(data) + Zeros(32) == Zeros(32);
      assert AddTop(Zeros(32), Reg(x)) == Reg(x);
    } else {
      var rest := MessageBits(data[1..]) + Zeros(32);
      var mixed := Xor(x, data[0]);
      assert MessageBits(data) + Zeros(32) == Low(data[0], 8) + rest;
      MixByte(x, data[0], rest);
      ShiftsDivide(Reg(mixed), 8, rest);
      StepsAreShifts(mixed, 8);
      FeedDivides(Steps(mixed, 8), data[1..]);
    }
  }

  /** The dividend of APPNOTE section 4.4.7: the message, its first 32 coefficients inverted, times x^32. */
  function Dividend(data: Bytes): (d: Poly)
    ensures |d| == 8 * |data| + 32
  {
    AddTop(MessageBits(data) + Zeros(32), Ones(32))
  }

  lemma RegOfNot(x: u32)
    ensures Reg(Not(x)) == Add(Reg(x), Ones(32))
    ensures Reg(MAX32) == Ones(32)
  {
    Pow2Is32();
    LowOfNot(x, 32);
    LowOfNot(0, 32);
    LowOfZero(32);
    assert Add(Zeros(32), Ones(32)) == Ones(32);
    assert Not(x) == Pow2(32) - 1 - x;
  }

  /** CRC-32 is the inverted remainder of the message by the generator polynomial, and nothing else is. */
  lemma {:induction false} CrcIsRemainder(data: Bytes, r: Poly)
    ensures IsRemainder(Dividend(data), r) <==> r == Reg(Not(Crc(data)))
  {
    FeedDivides(MAX32, data);
    RegOfNot(0);
    RemainderIsMod(Dividend(data), r);
  }

  // ----- what the checksum detects -----

  lemma CrcBits(data: Bytes)
    ensures Reg(Crc(data)) == Add(Mod(Dividend(data)), Ones(32))
  {
    CrcIsRemainder(data, Reg(Not(Crc(data))));
    RemainderIsMod(Dividend(data), Reg(Not(Crc(data))));
    RegOfNot(Not(Crc(data)));
  }

  lemma RegInjective(x: u32, y: u32)
    requires Reg(x) == Reg(y)
    ensures x == y
  {
    Pow2Is32();
    LowInjective(x, y, 32);
  }

  lemma {:induction false} MessageBitsXor(a: Bytes, b: Bytes)
    requires |a| == |b|
    ensures MessageBits(XorBytes(a, b)) == Add(MessageBits(a), MessageBits(b))
  {
    if a == [] {
    } else {
      XorBits(a[0], b[0], 8);
      MessageBitsXor(a[1..], b[1..]);
      assert XorBytes(a, b)[1..] == XorBytes(a[1..], b[1..]);
    }
  }

  /** CRC-32 is affine: over equal lengths the checksum of a^b^c is the exclusive or of the checksums. */
  lemma CrcAffine(a: Bytes, b: Bytes, c: Bytes)
    requires |a| == |b| == |c|
    ensures Crc(XorBytes(XorBytes(a, b), c)) == Xor(Xor(Crc(a), Crc(b)), Crc(c))
  {
    var ab := XorBytes(a, b);
    var abc := XorBytes(ab, c);
    MessageBitsXor(a, b);
    MessageBitsXor(ab, c);
    DividendOfThree(MessageBits(a), MessageBits(b), MessageBits(c));
    var da, db, dc := Dividend(a), Dividend(b), Dividend(c);
    assert Dividend(abc) == Add(Add(da, db), dc);
    ModLinear(da, db);
    ModLinear(Add(da, db), dc);
    CrcBits(a);
    CrcBits(b);
    CrcBits(c);
    CrcBits(abc);
    XorBits(Crc(a), Crc(b), 32);
    XorBits(Xor(Crc(a), Crc(b)), Crc(c), 32);
    OnesThrice(Mod(da), Mod(db), Mod(dc));
    RegInjective(Crc(abc), Xor(Xor(Crc(a), Crc(b)), Crc(c)));
  }

  lemma DividendOfThree(a: Poly, b: Poly, c: Poly)
    requires |a| == |b| == |c|
    ensures var z, o := Zeros(32), Ones(32);
            AddTop(Add(Add(a, b), c) + z, o) == Add(Add(AddTop(a + z, o), AddTop(b + z, o)), AddTop(c + z, o))
  {
  }

  lemma OnesThrice(a: Poly, b: Poly, c: Poly)
    requires |a| == |b| == |c| == 32
    ensures var o := Ones(32); Add(Add(Add(a, o), Add(b, o)), Add(c, o)) == Add(Add(Add(a, b), c), o)
  {
  }

  lemma {:induction false} MessageBitsAppend(a: Bytes, b: Bytes)
    ensures MessageBits(a + b) == MessageBits(a) + MessageBits(b)
  {
    if a == [] {
      assert a + b == b;
    } else {
      assert (a + b)[1..] == a[1..] + b;
      MessageBitsAppend(a[1..], b);
    }
  }

  lemma {:induction false} MessageBitsInjective(a: Bytes, b: Bytes)
    requires |a| == |b| && MessageBits(a) == MessageBits(b)
    ensures a == b
  {
    if a == [] {
    } else {
      assert MessageBits(a)[..8] == Low(a[0], 8) && MessageBits(b)[..8] == Low(b[0], 8);
      assert MessageBits(a)[8..] == MessageBits(a[1..]) && MessageBits(b)[8..] == MessageBits(b[1..]);
      Pow2Is32();
      LowInjective(a[0], b[0], 8);
      MessageBitsInjective(a[1..], b[1..]);
      assert a == [a[0]] + a[1..] && b == [b[0]] + b[1..];
    }
  }

  lemma DifferenceIsBurst(p: Poly, v: Poly, w: Poly, s: Poly)
    requires |v| == |w| <= 32
    ensures var z, o := Zeros(32), Ones(32);
            Add(AddTop(p + v + s + z, o), AddTop(p + w + s + z, o))
            == Zeros(|p|) + (Add(v, w) + Zeros(32 - |v|)) + Zeros(|s| + |v|)
  {
    var z, o := Zeros(32), Ones(32);
    var x, y := p + v + s + z, p + w + s + z;
    var left, right := Add(AddTop(x, o), AddTop(y, o)), Zeros(|p|) + (Add(v, w) + Zeros(32 - |v|)) + Zeros(|s| + |v|);
    forall i | 0 <= i < |left| ensures left[i] == right[i] {
      assert left[i] == (x[i] != y[i]);
    }
  }

  lemma AddIsZero(a: Poly, b: Poly)
    requires |a| == |b|
    ensures Add(a, b) == Zeros(|a|) <==> a == b
  {
    if Add(a, b) == Zeros(|a|) {
      forall i | 0 <= i < |a| ensures a[i] == b[i] {
        assert Add(a, b)[i] == Zeros(|a|)[i];
      }
    }
  }

  lemma MessageOfThree(a: Bytes, b: Bytes, c: Bytes)
    ensures MessageBits(a + b + c) == MessageBits(a) + MessageBits(b) + MessageBits(c)
  {
    MessageBitsAppend(a + b, c);
    MessageBitsAppend(a, b);
  }

  lemma EqualCrcs(x: Bytes, y: Bytes)
    requires |x| == |y| && Crc(x) == Crc(y)
    ensures Mod(Add(Dividend(x), Dividend(y))) == Zeros(32)
  {
    CrcBits(x);
    CrcBits(y);
    OnesCancel(Mod(Dividend(x)), Mod(Dividend(y)));
    ModLinear(Dividend(x), Dividend(y));
    AddIsZero(Mod(Dividend(x)), Mod(Dividend(y)));
  }

  lemma BurstIsNotZero(v: Bytes, w: Bytes)
    requires |v| == |w| <= 4 && v != w
    ensures Add(MessageBits(v), MessageBits(w)) + Zeros(32 - 8 * |v|) != Zeros(32)
  {
    var difference := Add(MessageBits(v), MessageBits(w));
    if difference + Zeros(32 - 8 * |v|) == Zeros(32) {
      assert difference == (difference + Zeros(32 - 8 * |v|))[..8 * |v|] == Zeros(8 * |v|);
      AddIsZero(MessageBits(v), MessageBits(w));
      MessageBitsInjective(v, w);
    }
  }

  /** The dividends of two such inputs differ by something the generator does not divide. */
  lemma BurstLeavesRemainder(p: Poly, v: Poly, w: Poly, s: Poly)
    requires |v| == |w| <= 32 && Add(v, w) + Zeros(32 - |v|) != Zeros(32)
    ensures var z, o := Zeros(32), Ones(32); Mod(Add(AddTop(p + v + s + z, o), AddTop(p + w + s + z, o))) != z
  {
    DifferenceIsBurst(p, v, w, s);
    BurstNotDivisible(|p|, Add(v, w) + Zeros(32 - |v|), |s| + |v|);
  }

  /** Two inputs that differ only inside a window of at most four bytes never have the same CRC. */
  lemma BurstsDetected(before: Bytes, v: Bytes, w: Bytes, after: Bytes)
    requires |v| == |w| <= 4 && v != w
    ensures Crc(before + v + after) != Crc(before + w + after)
  {
    var x, y := before + v + after, before + w + after;
    if Crc(x) == Crc(y) {
      EqualCrcs(x, y);
      MessageOfThree(before, v, after);
      MessageOfThree(before, w, after);
      BurstIsNotZero(v, w);
      BurstLeavesRemainder(MessageBits(before), MessageBits(v), MessageBits(w), MessageBits(after));
    }
  }

  lemma OnesCancel(a: Poly, b: Poly)
    requires |a| == |b| == 32 && Add(a, Ones(32)) == Add(b, Ones(32))
    ensures a == b
  {
    forall i | 0 <= i < 32 ensures a[i] == b[i] {
      assert Add(a, Ones(32))[i] == Add(b, Ones(32))[i];
    }
  }
}
