/** X25519 as section 5 of RFC 7748 defines it, on residues and integers. */
module Rfc7748 {
  import opened Common
  import opened Bits
  import opened Field

  datatype Ladder = Ladder(x2: int, z2: int, x3: int, z3: int)

  function CSwap(swap: int, s: Ladder): Ladder {
    if swap == 1 then Ladder(s.x3, s.z3, s.x2, s.z2) else s
  }

  function Step(x1: int, s: Ladder): Ladder {
    var a, b := Add(s.x2, s.z2), Sub(s.x2, s.z2);
    var aa, bb := Mul(a, a), Mul(b, b);
    var e := Sub(aa, bb);
    var c, d := Add(s.x3, s.z3), Sub(s.x3, s.z3);
    var da, cb := Mul(d, a), Mul(c, b);
    Ladder(Mul(aa, bb),
           Mul(e, Add(aa, Mul(121665, e))),
           Mul(Add(da, cb), Add(da, cb)),
           Mul(x1, Mul(Sub(da, cb), Sub(da, cb))))
  }

  /** (k >> t) & 1 */
  function Bit(k: nat, t: nat): int {
    Shr(k, t) % 2
  }

  /** The loop for the bits t - 1 down to 0, with the swap deferred from one round to the next. */
  ghost function Loop(k: nat, x1: int, t: nat, swap: int, s: Ladder): Ladder {
    if t == 0 then CSwap(swap, s)
    else
      var kt := Bit(k, t - 1);
      Loop(k, x1, t - 1, kt, Step(x1, CSwap((swap + kt) % 2, s)))
  }

  /** The u-coordinate of the scalar multiple, by 255 ladder rounds and an inversion. */
  ghost function Multiple(k: nat, u: int): int {
    var x1 := u % P;
    var s := Loop(k, x1, 255, 0, Ladder(1, 0, x1, 1));
    Mul(s.x2, Pow(s.z2, P - 2))
  }

  /** decodeScalar25519: clears bits 0 to 2 and 255, sets bit 254. */
  function DecodeScalar(n: nat): nat {
    POW254 + n / 8 % (POW254 / 8) * 8
  }

  const POW254: nat := 0x40000000_00000000_00000000_00000000_00000000_00000000_00000000_00000000

  /** The whole function on numbers: the unused top bit of u is masked. */
  ghost function X25519(n: nat, u: nat): int {
    Multiple(DecodeScalar(n), u % (2 * POW254))
  }

  /** The loop of the engine swaps back in every round. */
  ghost function EagerLoop(k: nat, x1: int, t: nat, s: Ladder): Ladder {
    if t == 0 then s
    else
      var kt := Bit(k, t - 1);
      EagerLoop(k, x1, t - 1, CSwap(kt, Step(x1, CSwap(kt, s))))
  }

  /** Swapping back in every round is the same as deferring the swap. */
  lemma {:induction false} EagerIsDeferred(k: nat, x1: int, t: nat, swap: int, s: Ladder)
    requires swap == 0 || swap == 1
    ensures Loop(k, x1, t, swap, s) == EagerLoop(k, x1, t, CSwap(swap, s))
  {
    hide Step, Bit;
    if t == 0 {
    } else {
      var kt := Bit(k, t - 1);
      BitRange(k, t - 1);
      EagerIsDeferred(k, x1, t - 1, kt, Step(x1, CSwap((swap + kt) % 2, s)));
    }
  }

  /** A round in the order in which the engine computes it. */
  function Doubled(a0: int, a0z: int): (int, int) {
    var b0, b0z := Mul(a0, a0), Mul(a0z, a0z);
    var e := Sub(b0, b0z);
    (Mul(b0, b0z), Mul(e, Add(Mul(121665, e), b0)))
  }

  function Added(x1: int, a0: int, a0z: int, a1: int, a1z: int): (int, int) {
    var b1, b1z := Mul(a1, a0z), Mul(a1z, a0);
    var c1, c1z := Add(b1, b1z), Sub(b1, b1z);
    (Mul(c1, c1), Mul(Mul(c1z, c1z), x1))
  }

  function EngineStep(x1: int, s: Ladder): Ladder {
    var a0, a0z := Add(s.x2, s.z2), Sub(s.x2, s.z2);
    var a1, a1z := Add(s.x3, s.z3), Sub(s.x3, s.z3);
    var (xn, zn), (xn1, zn1) := Doubled(a0, a0z), Added(x1, a0, a0z, a1, a1z);
    Ladder(xn, zn, xn1, zn1)
  }

  lemma EngineStepIsStep(x1: int, s: Ladder)
    ensures EngineStep(x1, s) == Step(x1, s)
  {
    hide Sub, Mul;
    var a, b := Add(s.x2, s.z2), Sub(s.x2, s.z2);
    var da, cb := Mul(Sub(s.x3, s.z3), a), Mul(Add(s.x3, s.z3), b);
    SquareOfDifference(cb, da);
    MulCommutes(x1, Mul(Sub(da, cb), Sub(da, cb)));
  }

  lemma BitRange(k: nat, t: nat)
    ensures Bit(k, t) == 0 || Bit(k, t) == 1
  {
  }
}

/** The Montgomery ladder of the engine on limb arrays. */
module X25519 {
  import opened Common
  import opened Limbs
  import opened Curve25519
  import opened Rfc7748
  import opened Bits
  import Field
  import Columns

  /** The four residues held by four limb arrays. */
  ghost function Residues(x2: seq<int>, z2: seq<int>, x3: seq<int>, z3: seq<int>): Ladder {
    Ladder(Fe(x2), Fe(z2), Fe(x3), Fe(z3))
  }

  /** Sum and difference of two field elements. */
  method SumAndDifference(x: array<uint32>, z: array<uint32>) returns (sum: array<uint32>, diff: array<uint32>)
    requires Bytes(x[..]) && Reduced(z[..])
    ensures fresh({sum, diff}) && sum != diff
    ensures Loose(sum[..]) && Fe(sum[..]) == Field.Add(Fe(x[..]), Fe(z[..]))
    ensures Loose(diff[..]) && Fe(diff[..]) == Field.Sub(Fe(x[..]), Fe(z[..]))
  {
    hide Fe, Num, Normal, Field.Add, Field.Sub;
    sum := new uint32[32];
    diff := new uint32[32];
    AddLimbs(sum, x, z);
    SubLimbs(diff, x, z);
  }

  /** 121665 * s + b. */
  method ScaledPlus(s: array<uint32>, b: array<uint32>) returns (u: array<uint32>)
    requires Loose(s[..]) && Reduced(b[..])
    ensures fresh(u) && Loose(u[..]) && Fe(u[..]) == Field.Add(Field.Mul(121665, Fe(s[..])), Fe(b[..]))
  {
    hide Fe, Num, Normal, Field.Add, Field.Mul;
    var t := new uint32[32];
    Mult121665(t, s);
    u := new uint32[32];
    AddLimbs(u, t, b);
  }

  /** The half of a round that doubles: from x + z and x - z. */
  method Double(a0: array<uint32>, a0z: array<uint32>) returns (xn: array<uint32>, zn: array<uint32>)
    requires Loose(a0[..]) && Loose(a0z[..])
    ensures fresh({xn, zn}) && xn != zn && Reduced(xn[..]) && Reduced(zn[..])
    ensures (Fe(xn[..]), Fe(zn[..])) == Doubled(Fe(a0[..]), Fe(a0z[..]))
  {
    hide Fe, Num, Normal, Fold, Columns.Cols, Field.Add, Field.Sub, Field.Mul;
    var b0 := new uint32[32];
    var b0z := new uint32[32];
    Square(b0, a0);
    Square(b0z, a0z);
    var s := new uint32[32];
    SubLimbs(s, b0, b0z);
    var u := ScaledPlus(s, b0);
    xn := new uint32[32];
    Mult(xn, b0, b0z);
    zn := new uint32[32];
    Mult(zn, s, u);
  }

  /** The half of a round that adds: from the sums and differences of both points. */
  method DifferentialAdd(work: array<uint32>, a0: array<uint32>, a0z: array<uint32>, a1: array<uint32>, a1z: array<uint32>)
    returns (xn1: array<uint32>, zn1: array<uint32>)
    requires Bytes(work[..]) && Loose(a0[..]) && Loose(a0z[..]) && Loose(a1[..]) && Loose(a1z[..])
    ensures fresh({xn1, zn1}) && xn1 != zn1 && Reduced(xn1[..]) && Reduced(zn1[..])
    ensures (Fe(xn1[..]), Fe(zn1[..]))
         == Added(Fe(work[..]), Fe(a0[..]), Fe(a0z[..]), Fe(a1[..]), Fe(a1z[..]))
  {
    hide Fe, Num, Normal, Fold, Columns.Cols, Field.Add, Field.Sub, Field.Mul;
    var b1 := new uint32[32];
    Mult(b1, a1, a0z);
    var b1z := new uint32[32];
    Mult(b1z, a1z, a0);
    var c1, c1z := SumAndDifference(b1, b1z);
    var r := new uint32[32];
    Square(r, c1z);
    xn1 := new uint32[32];
    Square(xn1, c1);
    zn1 := new uint32[32];
    Mult(zn1, r, work);
  }

  method LadderStep(work: array<uint32>,
                    xm: array<uint32>, zm: array<uint32>, xm1: array<uint32>, zm1: array<uint32>)
    returns (xn: array<uint32>, zn: array<uint32>, xn1: array<uint32>, zn1: array<uint32>)
    requires Bytes(work[..]) && Bytes(xm[..]) && Reduced(zm[..]) && Bytes(xm1[..]) && Reduced(zm1[..])
    ensures fresh({xn, zn, xn1, zn1})
    ensures xn != zn && xn != xn1 && xn != zn1 && zn != xn1 && zn != zn1 && xn1 != zn1
    ensures Reduced(xn[..]) && Reduced(zn[..]) && Reduced(xn1[..]) && Reduced(zn1[..])
    ensures Residues(xn[..], zn[..], xn1[..], zn1[..])
         == Step(Fe(work[..]), Residues(xm[..], zm[..], xm1[..], zm1[..]))
  {
    hide Fe, Num, Normal, Doubled, Added, Step, Field.Add, Field.Sub;
    var a0, a0z := SumAndDifference(xm, zm);
    var a1, a1z := SumAndDifference(xm1, zm1);
    xn, zn := Double(a0, a0z);
    xn1, zn1 := DifferentialAdd(work, a0, a0z, a1, a1z);
    EngineStepIsStep(Fe(work[..]), Residues(xm[..], zm[..], xm1[..], zm1[..]));
  }

  // ----- bits of the scalar

  lemma {:induction false} NumTail(s: seq<int>, n: nat)
    requires n < |s|
    ensures Val(s, n + 1) == s[0] + 256 * Val(s[1..], n)
  {
    if n == 0 {
    } else {
      NumTail(s, n - 1);
      assert s[n] * Pow256(n) == 256 * (s[1..][n - 1] * Pow256(n - 1));
    }
  }

  /** Bit t of a little-endian number is bit t % 8 of byte t / 8. */
  lemma {:induction false} BitOfBytes(s: seq<byte>, t: nat)
    requires t < 8 * |s|
    ensures Num(s) >= 0 && Bit(Num(s), t) == Shr(s[t / 8], t % 8) % 2
  {
    hide Val, Pow256, Shr;
    ValBound(s, |s|);
    ValBound(s[1..], |s| - 1);
    NumTail(s, |s| - 1);
    var rest := Num(s[1..]);
    if t < 8 {
      ShlByte(rest);
      ShrLow(s[0], rest, 8, t);
    } else {
      ShrAdd(Num(s), 8, t - 8);
      ShrByte(Num(s));
      BitOfBytes(s[1..], t - 8);
    }
  }

  // ----- the ladder

  /** The body of the loop: swap on the bit, step, swap back. */
  method LadderRound(work: array<uint32>,
                     xm: array<uint32>, zm: array<uint32>, xm1: array<uint32>, zm1: array<uint32>, b: uint32)
    requires xm != zm && xm != xm1 && xm != zm1 && zm != xm1 && zm != zm1 && xm1 != zm1
    requires work != xm && work != zm && work != xm1 && work != zm1 && b <= 1
    requires Bytes(work[..]) && Bytes(xm[..]) && Reduced(zm[..]) && Bytes(xm1[..]) && Reduced(zm1[..])
    modifies xm, zm, xm1, zm1
    ensures Reduced(xm[..]) && Reduced(zm[..]) && Reduced(xm1[..]) && Reduced(zm1[..])
    ensures Residues(xm[..], zm[..], xm1[..], zm1[..])
         == CSwap(b, Step(Fe(work[..]), CSwap(b, old(Residues(xm[..], zm[..], xm1[..], zm1[..])))))
  {
    hide Fe, Num, Normal, Step;
    var xmb := new uint32[32];
    var zmb := new uint32[32];
    var xm1b := new uint32[32];
    var zm1b := new uint32[32];
    Select(xmb, xm1b, xm, xm1, b);
    Select(zmb, zm1b, zm, zm1, b);
    var xn, zn, xn1, zn1 := LadderStep(work, xmb, zmb, xm1b, zm1b);
    Select(xm, xm1, xn, xn1, b);
    Select(zm, zm1, zn, zn1, b);
  }

  method MainLoop(workx: array<uint32>, workz: array<uint32>, e: seq<byte>)
    requires Bytes(workx[..]) && workz.Length == 32 && |e| == 32 && workx != workz
    modifies workx, workz
    ensures Bytes(workx[..]) && Reduced(workz[..]) && Num(e) >= 0
    ensures var x1 := old(Fe(workx[..]));
            var s := EagerLoop(Num(e), x1, 255, Ladder(1, 0, x1, 1));
            Fe(workx[..]) == s.x2 && Fe(workz[..]) == s.z2
  {
    hide Fe, Num, Normal, Step, EagerLoop, Bit;
    ghost var x1 := Fe(workx[..]);
    var xm := SmallElement(1);
    var zm := SmallElement(0);
    var xm1 := new uint32[32](k requires 0 <= k < 32 reads workx => workx[k]);
    var zm1 := SmallElement(1);
    assert xm1[..] == workx[..];
    BitOfBytes(e, 0);
    ghost var k: nat := Num(e);
    ghost var target := EagerLoop(k, x1, 255, Ladder(1, 0, x1, 1));
    var pos := 255;
    while pos > 0
      invariant 0 <= pos <= 255
      invariant Bytes(workx[..]) && Fe(workx[..]) == x1
      invariant Bytes(xm[..]) && Reduced(zm[..]) && Bytes(xm1[..]) && Reduced(zm1[..])
      invariant EagerLoop(k, x1, pos, Residues(xm[..], zm[..], xm1[..], zm1[..])) == target
    {
      pos := pos - 1;
      var b: uint32 := Shr(e[pos / 8], pos % 8) % 2;
      BitOfBytes(e, pos);
      EagerRound(k, x1, pos, Residues(xm[..], zm[..], xm1[..], zm1[..]));
      LadderRound(workx, xm, zm, xm1, zm1, b);
    }
    EagerDone(k, x1, Residues(xm[..], zm[..], xm1[..], zm1[..]));
    CopyLimbs(workx, xm);
    CopyLimbs(workz, zm);
  }

  lemma EagerRound(k: nat, x1: int, t: nat, s: Ladder)
    ensures EagerLoop(k, x1, t + 1, s) == EagerLoop(k, x1, t, CSwap(Bit(k, t), Step(x1, CSwap(Bit(k, t), s))))
  {
    hide Step, Bit;
  }

  lemma EagerDone(k: nat, x1: int, s: Ladder)
    ensures EagerLoop(k, x1, 0, s) == s
  {
  }

  method CopyLimbs(to: array<uint32>, from: array<uint32>)
    requires to.Length == from.Length == 32 && to != from
    modifies to
    ensures to[..] == from[..]
  {
    for j := 0 to 32
      invariant from[..] == old(from[..]) && forall k :: 0 <= k < j ==> to[k] == from[k]
    {
      to[j] := from[j];
    }
  }

  /** A single-limb constant. */
  method SmallElement(v: uint32) returns (a: array<uint32>)
    requires v <= 1
    ensures fresh(a) && Reduced(a[..]) && Fe(a[..]) == v
  {
    hide Val, Pow256;
    a := new uint32[32](k => if k == 0 then v else 0);
    ghost var zero: seq<int> := seq(32, _ => 0);
    ZeroValue(zero, 32);
    ValUpdate(zero, 0, v, 32);
    Pow256Zero();
    ghost var limbs: seq<int> := a[..];
    assert limbs == zero[0 := v];
  }

  // ----- inversion by exponentiation

  /** Field element a is x^e. */
  ghost predicate IsPower(a: seq<int>, x: int, e: nat) {
    Loose(a) && Fe(a) == Field.Pow(x, e)
  }

  method Times(a: array<uint32>, b: array<uint32>, ghost x: int, ghost m: nat, ghost n: nat) returns (out: array<uint32>)
    requires IsPower(a[..], x, m) && IsPower(b[..], x, n)
    ensures fresh(out) && IsPower(out[..], x, m + n)
  {
    hide Fe, Num, Normal, Field.Mul, Field.Pow;
    out := new uint32[32];
    Mult(out, a, b);
    Field.PowAdd(x, m, n);
  }

  /** n squarings in a row. */
  method SquareTimes(a: array<uint32>, n: nat, ghost x: int, ghost m: nat) returns (out: array<uint32>)
    requires IsPower(a[..], x, m) && n > 0
    ensures fresh(out) && IsPower(out[..], x, m * Pow2(n))
  {
    hide Fe, Num, Normal, Field.Mul, Field.Pow;
    out := new uint32[32];
    Square(out, a);
    Field.PowAdd(x, m, m);
    assert Pow2(1) == 2;
    for i := 1 to n
      invariant fresh(out) && IsPower(out[..], x, m * Pow2(i))
    {
      var t := out;
      out := new uint32[32];
      Square(out, t);
      Field.PowAdd(x, m * Pow2(i), m * Pow2(i));
    }
  }

  /** From x^(2^m - 1) and x^(2^n - 1) to x^(2^(m + n) - 1). */
  method Extend(a: array<uint32>, m: nat, b: array<uint32>, n: nat, ghost x: int) returns (out: array<uint32>)
    requires IsPower(a[..], x, Pow2(m) - 1) && IsPower(b[..], x, Pow2(n) - 1) && n > 0
    ensures fresh(out) && IsPower(out[..], x, Pow2(m + n) - 1)
  {
    hide IsPower;
    var t := SquareTimes(a, n, x, Pow2(m) - 1);
    out := Times(t, b, x, (Pow2(m) - 1) * Pow2(n), Pow2(n) - 1);
    Field.Pow2Add(m, n);
  }

  /** The shared part of the chain: z^(2^250 - 1), and z^11 on the way. */
  method Chain(z: array<uint32>) returns (t: array<uint32>, z11: array<uint32>)
    requires Loose(z[..])
    ensures fresh(t) && fresh(z11)
    ensures IsPower(t[..], Fe(z[..]), Pow2(250) - 1) && IsPower(z11[..], Fe(z[..]), 11)
  {
    hide IsPower, Pow2, Fe;
    ghost var x := Fe(z[..]);
    PowerOne(z[..]);
    SmallPow2();
    var z2 := SquareTimes(z, 1, x, 1);
    t := SquareTimes(z2, 2, x, 2);
    var z9 := Times(t, z, x, 8, 1);
    z11 := Times(z9, z2, x, 9, 2);
    t := SquareTimes(z11, 1, x, 11);
    var z2_5_0 := Times(t, z9, x, 22, 9);
    var z2_10_0 := Extend(z2_5_0, 5, z2_5_0, 5, x);
    var z2_20_0 := Extend(z2_10_0, 10, z2_10_0, 10, x);
    t := Extend(z2_20_0, 20, z2_20_0, 20, x);
    var z2_50_0 := Extend(t, 40, z2_10_0, 10, x);
    var z2_100_0 := Extend(z2_50_0, 50, z2_50_0, 50, x);
    t := Extend(z2_100_0, 100, z2_100_0, 100, x);
    t := Extend(t, 200, z2_50_0, 50, x);
  }

  /** z^(2^255 - 21), the inverse modulo P; out may be z. */
  method Recip(out: array<uint32>, z: array<uint32>)
    requires Loose(z[..]) && out.Length == 32
    modifies out
    ensures Reduced(out[..])
    ensures Fe(out[..]) == old(Field.Pow(Fe(z[..]), Field.P - 2))
  {
    hide IsPower, Field.Pow, Pow2, Fe;
    ghost var x := Fe(z[..]);
    var t, z11 := Chain(z);
    t := SquareTimes(t, 5, x, Pow2(250) - 1);
    FinalPower(t[..], z11[..], x);
    Mult(out, t, z11);
  }

  lemma PowerOne(z: seq<int>)
    requires Loose(z)
    ensures IsPower(z, Fe(z), 1)
  {
    hide Num;
    assert Field.Pow(Fe(z), 1) == Field.Mul(Fe(z), 1);
  }

  lemma SmallPow2()
    ensures Pow2(1) == 2 && Pow2(2) == 4 && Pow2(5) == 32
  {
  }

  /** (2^250 - 1) * 2^5 + 11 = 2^255 - 21 = P - 2 */
  lemma FinalPower(t: seq<int>, z11: seq<int>, x: int)
    requires IsPower(t, x, (Pow2(250) - 1) * Pow2(5)) && IsPower(z11, x, 11)
    ensures Loose(t) && Loose(z11) && Field.Mul(Fe(t), Fe(z11)) == Field.Pow(x, Field.P - 2)
  {
    hide Pow2, Field.Pow, Field.Mul, Fe, Normal;
    SmallPow2();
    Field.Pow2Add(250, 5);
    Field.Pow2Of255();
    Field.PowAdd(x, (Pow2(250) - 1) * 32, 11);
  }

  // ----- X25519

  /** The clamping of e[0] and e[31]: & 248, & 127, | 64. */
  function Clamp(n: seq<byte>): (e: seq<byte>)
    requires |n| == 32
    ensures |e| == 32
  {
    n[0 := n[0] - n[0] % 8][31 := n[31] % 64 + 64]
  }

  lemma ClampValue(n: seq<byte>)
    requires |n| == 32
    ensures Num(n) >= 0 && Num(Clamp(n)) == DecodeScalar(Num(n))
  {
    hide Val, Pow256;
    ValBound(n, 32);
    ValBound(n, 31);
    ValStep(n, 31);
    NumTail(n, 31);
    Pow256Zero();
    Pow256Values();
    var m: seq<int> := n;
    ValUpdate(m, 0, n[0] - n[0] % 8, 32);
    ValUpdate(m[0 := n[0] - n[0] % 8], 31, n[31] % 64 + 64, 32);
    var e: seq<int> := Clamp(n);
    assert e == m[0 := n[0] - n[0] % 8][31 := n[31] % 64 + 64];
    ClampArithmetic(Num(n), n[0], Val(n[1..], 31), Val(n, 31), n[31]);
  }

  const W31: int := 0x1_00000000_00000000_00000000_00000000_00000000_00000000_00000000_000000

  lemma ClampArithmetic(v: nat, n0: nat, tail: int, low: int, n31: nat)
    requires v == n0 + 256 * tail && v == low + n31 * W31
    requires 0 <= low < W31 && n31 < 256
    ensures v - n0 % 8 + (n31 % 64 + 64 - n31) * W31 == DecodeScalar(v)
  {
    var h, l := n31 / 64, n31 % 64;
    var b := (low + l * W31) / 8;
    assert v % 8 == n0 % 8;
    assert v / 8 == b + h * (POW254 / 8);
    QuotientUnique(v / 8, h, b, POW254 / 8);
  }

  /** The conversion of the frozen limbs to bytes. */
  method EmitBytes(q: array<byte>, w: array<uint32>)
    requires q.Length == w.Length == 32 && Normal(w[..], 31)
    modifies q
    ensures Num(q[..]) == Num(w[..][31 := w[31] % 256])
  {
    ghost var target: seq<int> := w[..][31 := w[31] % 256];
    for i := 0 to 32
      invariant w[..] == old(w[..])
      invariant forall k :: 0 <= k < i ==> q[k] == w[k] % 256
    {
      q[i] := w[i] % 256;
    }
    forall k | 0 <= k < 32 ensures q[k] == target[k] {
      assert k < 31 ==> w[..][k] <= 255;
    }
    ghost var bytes: seq<int> := q[..];
    assert bytes == target;
  }

  /** crypto_scalarmult: the ladder on the clamped scalar and the u-coordinate as given. */
  method ScalarMult(q: array<byte>, n: seq<byte>, p: seq<byte>)
    requires q.Length == 32 && |n| == 32 && |p| == 32
    modifies q
    ensures Num(n) >= 0 && Num(q[..]) == Multiple(DecodeScalar(Num(n)), Num(p))
    ensures p[31] < 128 ==> Num(p) >= 0 && Num(q[..]) == X25519(Num(n), Num(p))
    ensures Num(p) >= 0 && Num(q[..]) == X25519(Num(n), Num(p) % Field.P)
    ensures Num(p) % Field.P == (Num(p) % (2 * POW254) + if p[31] < 128 then 0 else 19) % Field.P
  {
    hide Num, Normal, Field.Mul, EagerLoop, Loop, Field.Pow, DecodeScalar, Clamp, Fold, Columns.Cols, Rfc7748.X25519;
    var e := Clamp(n);
    var x := new uint32[32](k requires 0 <= k < 32 => p[k]);
    var z := new uint32[32];
    assert x[..] == p;
    BytesFit(p);
    MainLoop(x, z, e);
    Recip(z, z);
    var w := new uint32[32];
    Mult(w, x, z);
    Freeze(w);
    EmitBytes(q, w);
    ClampValue(n);
    EagerIsDeferred(Num(e), Fe(p), 255, 0, Ladder(1, 0, Fe(p), 1));
    TopBit(p);
    ByResidue(Num(n), Num(p));
  }

  lemma ByResidue(n: nat, u: nat)
    ensures Multiple(DecodeScalar(n), u) == X25519(n, u % Field.P)
    ensures u < 2 * POW254 ==> Multiple(DecodeScalar(n), u) == X25519(n, u)
  {
    hide Loop, Field.Pow, Field.Mul, DecodeScalar;
  }

  lemma BytesFit(p: seq<byte>)
    requires |p| == 32
    ensures Bytes(p)
  {
  }

  /** A top bit that is set counts 2^255, which is 19 modulo P, where the RFC would mask it. */
  lemma TopBit(p: seq<byte>)
    requires |p| == 32
    ensures 0 <= Num(p) && (p[31] < 128 ==> Num(p) < 2 * POW254)
    ensures Num(p) % Field.P == (Num(p) % (2 * POW254) + if p[31] < 128 then 0 else 19) % Field.P
  {
    hide Val, Pow256;
    ValBound(p, 31);
    ValStep(p, 31);
    Pow256Values();
    if p[31] >= 128 {
      QuotientUnique(Num(p), 1, Num(p) - 2 * POW254, 2 * POW254);
      Field.ModEq(Num(p), Num(p) - 2 * POW254 + 19, 1);
    }
  }
}
