/** Unsigned machine words as bounded numbers, and their bitwise operators. */
module Words {
  import opened Domain
  import opened Gf2

  type u8 = n: nat | n < 0x100
  type u32 = n: nat | n < U32

  type Bytes = seq<u8>

  const MAX32: u32 := 0xFFFF_FFFF

  function Pow2(n: nat): (p: nat)
    ensures p >= 1
  {
    if n == 0 then 1 else 2 * Pow2(n - 1)
  }

  /** The lowest `n` bits of a word, lowest first. */
  function Low(x: nat, n: nat): (p: Poly)
    ensures |p| == n
    decreases n, x
  {
    if n == 0 then [] else [x % 2 == 1] + Low(x / 2, n - 1)
  }

  function XorNat(x: nat, y: nat): nat {
    if x == 0 then y
    else if y == 0 then x
    else (if x % 2 == y % 2 then 0 else 1) + 2 * XorNat(x / 2, y / 2)
  }

  function AndNat(x: nat, y: nat): nat {
    if x == 0 || y == 0 then 0
    else (if x % 2 == 1 && y % 2 == 1 then 1 else 0) + 2 * AndNat(x / 2, y / 2)
  }

  lemma {:induction false} XorBits(x: nat, y: nat, n: nat)
    ensures Low(XorNat(x, y), n) == Add(Low(x, n), Low(y, n))
    decreases n
  {
    if n == 0 {
    } else {
      XorStep(x, y);
      XorBits(x / 2, y / 2, n - 1);
    }
  }

  lemma XorStep(x: nat, y: nat)
    ensures XorNat(x, y) / 2 == XorNat(x / 2, y / 2)
    ensures XorNat(x, y) % 2 == 1 <==> (x % 2 == 1) != (y % 2 == 1)
  {
    if x == 0 {
      assert XorNat(0, y / 2) == y / 2;
    } else if y == 0 {
      assert XorNat(x / 2, 0) == x / 2;
    }
  }

  lemma {:induction false} XorBound(x: nat, y: nat, n: nat)
    requires x < Pow2(n) && y < Pow2(n)
    ensures XorNat(x, y) < Pow2(n)
    decreases n
  {
    if n == 0 {
    } else {
      XorBound(x / 2, y / 2, n - 1);
      XorStep(x, y);
    }
  }

  lemma {:induction false} AndAtMost(x: nat, y: nat)
    ensures AndNat(x, y) <= x
  {
    if x == 0 || y == 0 {
    } else {
      AndAtMost(x / 2, y / 2);
    }
  }

  lemma {:induction false} AndWithOnes(x: nat, n: nat)
    requires x < Pow2(n)
    ensures AndNat(x, Pow2(n) - 1) == x
    decreases n
  {
    if n == 0 || x == 0 {
    } else {
      assert (Pow2(n) - 1) / 2 == Pow2(n - 1) - 1;
      AndWithOnes(x / 2, n - 1);
    }
  }

  lemma Pow2Is32()
    ensures Pow2(32) == U32 && Pow2(8) == 0x100
  {
    assert Pow2(8) == 0x100;
    assert Pow2(16) == U16;
    assert Pow2(24) == 0x100_0000;
  }

  function Xor(x: u32, y: u32): (r: u32) {
    Pow2Is32();
    XorBound(x, y, 32);
    XorNat(x, y)
  }

  /** Byte-wise exclusive or of equally long inputs. */
  function XorBytes(a: Bytes, b: Bytes): (r: Bytes)
    requires |a| == |b|
    ensures |r| == |a|
  {
    if a == [] then []
    else
      Pow2Is32();
      XorBound(a[0], b[0], 8);
      [XorNat(a[0], b[0])] + XorBytes(a[1..], b[1..])
  }

  function And(x: u32, y: u32): (r: u32) {
    AndAtMost(x, y);
    AndNat(x, y)
  }

  function Not(x: u32): u32 {
    MAX32 - x
  }

  function WrappingAdd(x: u32, y: u32): u32 {
    (x + y) % U32
  }

  lemma {:induction false} LowOfZero(n: nat)
    ensures Low(0, n) == Zeros(n)
    decreases n
  {
    if n == 0 {
    } else {
      LowOfZero(n - 1);
    }
  }

  lemma {:induction false} LowPadded(x: nat, n: nat, k: nat)
    requires x < Pow2(n)
    ensures Low(x, n + k) == Low(x, n) + Zeros(k)
    decreases n
  {
    if n == 0 {
      LowOfZero(k);
    } else {
      LowPadded(x / 2, n - 1, k);
    }
  }

  lemma {:induction false} LowInjective(x: nat, y: nat, n: nat)
    requires x < Pow2(n) && y < Pow2(n) && Low(x, n) == Low(y, n)
    ensures x == y
    decreases n
  {
    if n == 0 {
    } else {
      assert Low(x, n)[0] == Low(y, n)[0];
      assert Low(x, n)[1..] == Low(y, n)[1..];
      LowInjective(x / 2, y / 2, n - 1);
    }
  }

  lemma {:induction false} LowOfNot(x: nat, n: nat)
    requires x < Pow2(n)
    ensures Low(Pow2(n) - 1 - x, n) == Add(Low(x, n), Ones(n))
    decreases n
  {
    if n == 0 {
    } else {
      var y := Pow2(n) - 1 - x;
      assert y / 2 == Pow2(n - 1) - 1 - x / 2 && y % 2 == 1 - x % 2;
      LowOfNot(x / 2, n - 1);
    }
  }

  function Ones(n: nat): (p: Poly)
    ensures |p| == n
  {
    seq(n, _ => true)
  }
}
