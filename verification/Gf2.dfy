/** Polynomials over GF(2), highest coefficient first, and division by the CRC-32 generator. */
module Gf2 {

  type Poly = seq<bool>

  /** The generator of APPNOTE section 4.4.7 below its leading x^32:
      x^26 + x^23 + x^22 + x^16 + x^12 + x^11 + x^10 + x^8 + x^7 + x^5 + x^4 + x^2 + x + 1. */
  const EXPONENTS: set<nat> := {26, 23, 22, 16, 12, 11, 10, 8, 7, 5, 4, 2, 1, 0}

  /** The coefficients of x^(n-1) down to x^0. */
  function Coefficients(exponents: set<nat>, n: nat): (p: Poly)
    ensures |p| == n
    decreases n, exponents
  {
    if n == 0 then [] else [n - 1 in exponents] + Coefficients(exponents, n - 1)
  }

  const GENERATOR: Poly := Coefficients(EXPONENTS, 32)

  lemma {:induction false} CoefficientsAt(exponents: set<nat>, n: nat, i: nat)
    requires i < n
    ensures Coefficients(exponents, n)[i] <==> n - 1 - i in exponents
    decreases n
  {
    if i == 0 {
    } else {
      CoefficientsAt(exponents, n - 1, i - 1);
    }
  }

  function Zeros(n: nat): (z: Poly)
    ensures |z| == n
  {
    seq(n, _ => false)
  }

  function Add(a: Poly, b: Poly): (r: Poly)
    requires |a| == |b|
    ensures |r| == |a|
    ensures forall i :: 0 <= i < |a| ==> r[i] == (a[i] != b[i])
  {
    seq(|a|, i requires 0 <= i < |a| => a[i] != b[i])
  }

  /** Adds `p` to the highest coefficients of `a`. */
  function AddTop(a: Poly, p: Poly): (r: Poly)
    requires |p| <= |a|
    ensures |r| == |a|
    ensures forall i :: 0 <= i < |a| ==> r[i] == (if i < |p| then a[i] != p[i] else a[i])
  {
    Add(a[..|p|], p) + a[|p|..]
  }

  /** Schoolbook product with the generator. */
  function TimesGenerator(q: Poly): (r: Poly)
    ensures |r| == |q| + 32
  {
    if q == [] then Zeros(32)
    else if q[0] then [true] + AddTop(TimesGenerator(q[1..]), GENERATOR)
    else [false] + TimesGenerator(q[1..])
  }

  /** `r`, of degree below 32, is what division of `d` by the generator leaves. */
  ghost predicate IsRemainder(d: Poly, r: Poly) {
    |r| == 32 && exists q: Poly :: |q| + 32 == |d| && IsDivision(d, q, r)
  }

  predicate IsDivision(d: Poly, q: Poly, r: Poly)
    requires |r| == 32 && |q| + 32 == |d|
  {
    d == Add(TimesGenerator(q), Zeros(|q|) + r)
  }

  /** Takes the generator out of the leading coefficient and drops that. */
  function Reduce(d: Poly): (r: Poly)
    requires |d| > 32
    ensures |r| == |d| - 1
  {
    if d[0] then AddTop(d[1..], GENERATOR) else d[1..]
  }

  /** Long division: the quotient. */
  function Quotient(d: Poly): (q: Poly)
    requires |d| >= 32
    ensures |q| + 32 == |d|
    decreases |d|
  {
    if |d| == 32 then [] else [d[0]] + Quotient(Reduce(d))
  }

  /** Long division: the remainder. */
  function Mod(d: Poly): (r: Poly)
    requires |d| >= 32
    ensures |r| == 32
    decreases |d|
  {
    if |d| == 32 then d else Mod(Reduce(d))
  }

  lemma AddTopTwice(a: Poly, p: Poly)
    requires |p| <= |a|
    ensures AddTop(AddTop(a, p), p) == a
  {
    var twice := AddTop(AddTop(a, p), p);
    forall i | 0 <= i < |a| ensures twice[i] == a[i] {
    }
  }

  lemma AddTopAdd(a: Poly, b: Poly, p: Poly)
    requires |p| <= |a| == |b|
    ensures AddTop(Add(a, b), p) == Add(AddTop(a, p), b)
  {
    var left, right := AddTop(Add(a, b), p), Add(AddTop(a, p), b);
    forall i | 0 <= i < |a| ensures left[i] == right[i] {
    }
  }

  /** One more coefficient on each of two polynomials of the same length. */
  lemma ConsAdd(x: bool, a: Poly, y: bool, b: Poly)
    requires |a| == |b|
    ensures Add([x] + a, [y] + b) == [x != y] + Add(a, b)
  {
    var left, right := Add([x] + a, [y] + b), [x != y] + Add(a, b);
    forall i | 0 <= i < |left| ensures left[i] == right[i] {
    }
  }

  /** Adding the generator back undoes a reduction. */
  lemma UndoReduce(d: Poly, t: Poly, pad: Poly)
    requires |d| > 32 && |t| == |pad| == |d| - 1 && Reduce(d) == Add(t, pad)
    ensures d == Add([d[0]] + (if d[0] then AddTop(t, GENERATOR) else t), [false] + pad)
  {
    if d[0] {
      AddTopAdd(t, pad, GENERATOR);
      AddTopTwice(d[1..], GENERATOR);
      ConsAdd(true, AddTop(t, GENERATOR), false, pad);
    } else {
      ConsAdd(false, t, false, pad);
    }
    assert d == [d[0]] + d[1..];
  }

  lemma TimesUnfold(q: Poly)
    requires q != []
    ensures var t := TimesGenerator(q[1..]);
            TimesGenerator(q) == [q[0]] + (if q[0] then AddTop(t, GENERATOR) else t)
  {
  }

  lemma ZerosUnfold(n: nat, r: Poly)
    ensures Zeros(n + 1) + r == [false] + (Zeros(n) + r)
  {
  }

  lemma {:induction false} LongDivision(d: Poly)
    requires |d| >= 32
    ensures IsDivision(d, Quotient(d), Mod(d))
    decreases |d|
  {
    if |d| == 32 {
      DivisionByNothing(d, d);
    } else {
      LongDivision(Reduce(d));
      DivisionStep(d, d[0], Quotient(Reduce(d)), Mod(d));
    }
  }

  lemma DivisionByNothing(d: Poly, r: Poly)
    requires |d| == |r| == 32
    ensures IsDivision(d, [], r) <==> d == r
  {
    assert Zeros(0) + r == r;
    assert Add(Zeros(32), r) == r;
  }

  /** A division of the reduced dividend, with the leading coefficient put back. */
  lemma DivisionStep(d: Poly, x: bool, q: Poly, r: Poly)
    requires |d| > 32 && |r| == 32 && |q| + 33 == |d| && x == d[0] && IsDivision(Reduce(d), q, r)
    ensures IsDivision(d, [x] + q, r)
  {
    UndoReduce(d, TimesGenerator(q), Zeros(|q|) + r);
    assert ([x] + q)[1..] == q;
    TimesUnfold([x] + q);
    ZerosUnfold(|q|, r);
  }

  /** Any division starts with the leading coefficient and goes on as one of the reduced dividend. */
  lemma DivisionHead(d: Poly, x: bool, q: Poly, r: Poly)
    requires |d| > 32 && |r| == 32 && |q| + 33 == |d| && IsDivision(d, [x] + q, r)
    ensures x == d[0] && IsDivision(Reduce(d), q, r)
  {
    var t, pad := TimesGenerator(q), Zeros(|q|) + r;
    assert ([x] + q)[1..] == q;
    TimesUnfold([x] + q);
    ZerosUnfold(|q|, r);
    if x {
      ConsAdd(true, AddTop(t, GENERATOR), false, pad);
      AddTopAdd(AddTop(t, GENERATOR), pad, GENERATOR);
      AddTopTwice(t, GENERATOR);
      assert d[1..] == Add(AddTop(t, GENERATOR), pad);
    } else {
      ConsAdd(false, t, false, pad);
      assert d[1..] == Add(t, pad);
    }
  }

  lemma {:induction false} DivisionUnique(d: Poly, q: Poly, r: Poly)
    requires |r| == 32 && |q| + 32 == |d| && IsDivision(d, q, r)
    ensures q == Quotient(d) && r == Mod(d)
    decreases |d|
  {
    if q == [] {
      DivisionByNothing(d, r);
    } else {
      assert q == [q[0]] + q[1..];
      DivisionHead(d, q[0], q[1..], r);
      DivisionUnique(Reduce(d), q[1..], r);
    }
  }

  /** Division always leaves exactly one remainder, the one long division finds. */
  lemma {:induction false} RemainderIsMod(d: Poly, r: Poly)
    requires |d| >= 32
    ensures IsRemainder(d, r) <==> r == Mod(d)
  {
    LongDivision(d);
    if IsRemainder(d, r) {
      var q: Poly :| |q| + 32 == |d| && IsDivision(d, q, r);
      DivisionUnique(d, q, r);
    }
  }

  lemma ReduceLinear(a: Poly, b: Poly)
    requires |a| == |b| > 32
    ensures Reduce(Add(a, b)) == Add(Reduce(a), Reduce(b))
  {
    var s := Add(a, b);
    forall i | 0 <= i < |a| - 1 ensures Reduce(s)[i] == (Reduce(a)[i] != Reduce(b)[i]) {
      assert s[i + 1] == (a[i + 1] != b[i + 1]);
      assert s[1..][i] == s[i + 1] && a[1..][i] == a[i + 1] && b[1..][i] == b[i + 1];
    }
  }

  lemma {:induction false} ModLinear(a: Poly, b: Poly)
    requires |a| == |b| >= 32
    ensures Mod(Add(a, b)) == Add(Mod(a), Mod(b))
    decreases |a|
  {
    if |a| == 32 {
    } else {
      ModLinear(Reduce(a), Reduce(b));
      ReduceLinear(a, b);
    }
  }

  // ----- the shift register -----

  /** One turn of a 32-bit shift register whose lowest bit is the highest coefficient. */
  function Shift(r: Poly): (s: Poly)
    requires |r| == 32
    ensures |s| == 32
  {
    if r[0] then Add(r[1..] + [false], GENERATOR) else r[1..] + [false]
  }

  function Shifts(r: Poly, n: nat): (s: Poly)
    requires |r| == 32
    ensures |s| == 32
    decreases n, r
  {
    if n == 0 then r else Shifts(Shift(r), n - 1)
  }

  lemma AddTopTail(r: Poly, rest: Poly)
    requires |r| == 32 <= |rest|
    ensures AddTop([false] + rest, r)[0] == r[0]
    ensures AddTop([false] + rest, r)[1..] == AddTop(rest, r[1..] + [false])
  {
  }

  lemma AddTopMerge(rest: Poly, p: Poly, q: Poly)
    requires |p| == |q| <= |rest|
    ensures AddTop(AddTop(rest, p), q) == AddTop(rest, Add(p, q))
  {
  }

  lemma ReduceShifts(r: Poly, rest: Poly)
    requires |r| == 32 <= |rest|
    ensures Reduce(AddTop([false] + rest, r)) == AddTop(rest, Shift(r))
  {
    AddTopTail(r, rest);
    AddTopMerge(rest, r[1..] + [false], GENERATOR);
  }

  /** A register over a dividend whose next coefficient is zero divides one step. */
  lemma ShiftDivides(r: Poly, rest: Poly)
    requires |r| == 32 <= |rest|
    ensures Mod(AddTop([false] + rest, r)) == Mod(AddTop(rest, Shift(r)))
  {
    ReduceShifts(r, rest);
  }

  lemma {:induction false} ShiftsDivide(r: Poly, n: nat, rest: Poly)
    requires |r| == 32 <= |rest|
    ensures Mod(AddTop(Zeros(n) + rest, r)) == Mod(AddTop(rest, Shifts(r, n)))
    decreases n
  {
    if n == 0 {
      assert Zeros(0) + rest == rest;
    } else {
      assert Zeros(n) + rest == [false] + (Zeros(n - 1) + rest);
      ShiftDivides(r, Zeros(n - 1) + rest);
      ShiftsDivide(Shift(r), n - 1, rest);
    }
  }

  lemma ShiftAt(r: Poly, i: nat)
    requires |r| == 32 && i < 32
    ensures Shift(r)[i] == ((if i < 31 then r[i + 1] else false) != (r[0] && GENERATOR[i]))
  {
    var moved := r[1..] + [false];
    assert moved[i] == if i < 31 then r[i + 1] else false;
  }

  /** The generator's constant term tells, after a shift, which bit fell out. */
  lemma ShiftInjective(r: Poly, s: Poly)
    requires |r| == |s| == 32 && Shift(r) == Shift(s)
    ensures r == s
  {
    CoefficientsAt(EXPONENTS, 32, 31);
    ShiftAt(r, 31);
    ShiftAt(s, 31);
    assert r[0] == s[0];
    forall i | 1 <= i < 32 ensures r[i] == s[i] {
      ShiftAt(r, i - 1);
      ShiftAt(s, i - 1);
    }
  }

  lemma {:induction false} ShiftsInjective(r: Poly, s: Poly, n: nat)
    requires |r| == |s| == 32 && Shifts(r, n) == Shifts(s, n)
    ensures r == s
    decreases n
  {
    if n == 0 {
    } else {
      ShiftsInjective(Shift(r), Shift(s), n - 1);
      ShiftInjective(r, s);
    }
  }

  lemma {:induction false} ShiftsOfZero(n: nat)
    ensures Shifts(Zeros(32), n) == Zeros(32)
  {
    if n == 0 {
    } else {
      assert Shift(Zeros(32)) == Zeros(32);
      ShiftsOfZero(n - 1);
    }
  }

  lemma {:induction false} LeadingZerosFall(n: nat, d: Poly)
    requires |d| >= 32
    ensures Mod(Zeros(n) + d) == Mod(d)
  {
    if n == 0 {
      assert Zeros(0) + d == d;
    } else {
      LeadingZerosFall(n - 1, d);
      assert (Zeros(n) + d)[1..] == Zeros(n - 1) + d;
    }
  }

  /** A non-zero pattern of at most 32 coefficients is never a multiple of the generator, wherever it stands. */
  lemma BurstNotDivisible(before: nat, burst: Poly, after: nat)
    requires |burst| == 32 && burst != Zeros(32)
    ensures Mod(Zeros(before) + burst + Zeros(after)) != Zeros(32)
  {
    var d := burst + Zeros(after);
    assert Zeros(before) + burst + Zeros(after) == Zeros(before) + d;
    LeadingZerosFall(before, d);
    BurstOnTop(burst, after);
    ShiftsDivide(burst, after, Zeros(32));
    AddTopToZeros(Shifts(burst, after));
    ShiftsNotZero(burst, after);
  }

  lemma BurstOnTop(burst: Poly, after: nat)
    requires |burst| == 32
    ensures burst + Zeros(after) == AddTop(Zeros(after) + Zeros(32), burst)
  {
    forall i | 0 <= i < 32 + after ensures (Zeros(after) + Zeros(32))[i] == false {
    }
  }

  lemma AddTopToZeros(r: Poly)
    requires |r| == 32
    ensures AddTop(Zeros(32), r) == Mod(r) == r
  {
  }

  lemma ShiftsNotZero(r: Poly, n: nat)
    requires |r| == 32 && r != Zeros(32)
    ensures Shifts(r, n) != Zeros(32)
  {
    if Shifts(r, n) == Zeros(32) {
      ShiftsOfZero(n);
      ShiftsInjective(r, Zeros(32), n);
    }
  }
}
