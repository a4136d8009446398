/** Arithmetic modulo the order L of the Ed25519 base point, by Barrett reduction. */
module Sc25519 {
  import opened Common
  import opened Limbs
  import opened Products
  import opened Bits
  import Field

  /** 2^252 + 27742317777372353535851937790883648493 */
  const L: int := 0x10000000_00000000_00000000_00000000_14def9de_a2f79cd6_5812631a_5cf5d3ed

  /** floor(2^512 / L) */
  const MU_VALUE: int := 0xf_ffffffff_ffffffff_ffffffff_ffffffeb_2106215d_086329a7_ed9ce5a3_0a2c131b

  const M0: seq<uint32> := [0xED, 0xD3, 0xF5, 0x5C, 0x1A, 0x63, 0x12, 0x58]
  const M1: seq<uint32> := [0xD6, 0x9C, 0xF7, 0xA2, 0xDE, 0xF9, 0xDE, 0x14]
  const M2: seq<uint32> := [0x00, 0x00, 0x00, 0x00, 0x00, 0x00, 0x00, 0x00]
  const M3: seq<uint32> := [0x00, 0x00, 0x00, 0x00, 0x00, 0x00, 0x00, 0x10]

  /** The table m. */
  const M: seq<uint32> := M0 + M1 + M2 + M3

  const MU0: seq<uint32> := [0x1B, 0x13, 0x2C, 0x0A, 0xA3, 0xE5, 0x9C, 0xED]
  const MU1: seq<uint32> := [0xA7, 0x29, 0x63, 0x08, 0x5D, 0x21, 0x06, 0x21]
  const MU2: seq<uint32> := [0xEB, 0xFF, 0xFF, 0xFF, 0xFF, 0xFF, 0xFF, 0xFF]
  const MU3: seq<uint32> := [0xFF, 0xFF, 0xFF, 0xFF, 0xFF, 0xFF, 0xFF, 0xFF]

  /** The table mu. */
  const MU: seq<uint32> := MU0 + MU1 + MU2 + MU3 + [0x0F]

  lemma {:induction false} ValConcat(a: seq<int>, b: seq<int>, n: nat)
    requires n <= |b|
    ensures Val(a + b, |a| + n) == Num(a) + Pow256(|a|) * Val(b, n)
  {
    hide Pow256;
    if n == 0 {
      ValSame(a + b, a, |a|);
    } else {
      ValConcat(a, b, n - 1);
      Pow256Add(|a|, n - 1);
      var p, q, v := Pow256(|a|), Pow256(n - 1), b[n - 1];
      assert (a + b)[|a| + n - 1] == v;
      assert v * (p * q) == p * (v * q);
      assert p * (Val(b, n - 1) + v * q) == p * Val(b, n - 1) + p * (v * q);
    }
  }

  lemma {:induction false} SumConcat(a: seq<int>, b: seq<int>, n: nat)
    requires n <= |b|
    ensures Sum(a + b, |a| + n) == Sum(a, |a|) + Sum(b, n)
  {
    if n == 0 {
      SumSame(a + b, a, |a|);
    } else {
      SumConcat(a, b, n - 1);
    }
  }

  lemma Concat(a: seq<int>, b: seq<int>)
    ensures Num(a + b) == Num(a) + Pow256(|a|) * Num(b)
    ensures Sum(a + b, |a + b|) == Sum(a, |a|) + Sum(b, |b|)
  {
    ValConcat(a, b, |b|);
    SumConcat(a, b, |b|);
  }

  lemma {:induction false} SumSame(s: seq<int>, t: seq<int>, n: nat)
    requires n <= |s| && n <= |t| && forall k :: 0 <= k < n ==> s[k] == t[k]
    ensures Sum(s, n) == Sum(t, n)
  {
    if n == 0 {
    } else {
      SumSame(s, t, n - 1);
    }
  }

  /** The value and digit sum of eight limbs. */
  lemma Octet(s: seq<int>)
    requires |s| == 8
    ensures Num(s) == s[0] + 0x100 * s[1] + 0x10000 * s[2] + 0x1000000 * s[3]
                    + 0x1_00000000 * (s[4] + 0x100 * s[5] + 0x10000 * s[6] + 0x1000000 * s[7])
    ensures Sum(s, |s|) == s[0] + s[1] + s[2] + s[3] + s[4] + s[5] + s[6] + s[7]
  {
    ValOctet(s, 0);
    assert Sum(s, 1) == s[0];
    assert Sum(s, 3) == Sum(s, 1) + s[1] + s[2];
    assert Sum(s, 5) == Sum(s, 3) + s[3] + s[4];
    assert Sum(s, 7) == Sum(s, 5) + s[5] + s[6];
  }

  lemma ModulusOctets()
    ensures Num(M0) == 0x5812631a_5cf5d3ed && Num(M1) == 0x14def9de_a2f79cd6
    ensures Num(M2) == 0 && Num(M3) == 0x10000000_00000000
    ensures Sum(M0, 8) == 1016 && Sum(M1, 8) == 1492 && Sum(M2, 8) == 0 && Sum(M3, 8) == 16
  {
    hide Val, Sum;
    Octet(M0);
    Octet(M1);
    Octet(M2);
    Octet(M3);
  }

  /** The constant m is L, and its digit sum keeps the second accumulation below 2^32. */
  /** The order of the base point, as section 5.1 of RFC 8032 gives it. */
  lemma OrderIs()
    ensures L == Pow2(252) + 27742317777372353535851937790883648493
  {
    Field.Pow2Of255();
    assert Pow2(255) == 2 * Pow2(254) && Pow2(254) == 2 * Pow2(253) && Pow2(253) == 2 * Pow2(252);
  }

  lemma ModulusValue()
    ensures Num(M) == L && Sum(M, |M|) == 2524
  {
    hide Val, Pow256, Sum;
    Pow256Octets();
    ModulusOctets();
    Concat(M0, M1);
    Concat(M0 + M1, M2);
    Concat(M0 + M1 + M2, M3);
  }

  /** The constant mu, and its digit sum, which keeps the first accumulation below 2^32. */
  lemma MuValue()
    ensures Num(MU) == MU_VALUE == B31 * B33 / L && Sum(MU, |MU|) == 5440
  {
    hide Val, Pow256, Sum;
    Pow256Octets();
    Octet(MU0);
    Octet(MU1);
    Octet(MU2);
    Octet(MU3);
    Concat(MU0, MU1);
    Concat(MU0 + MU1, MU2);
    Concat(MU0 + MU1 + MU2, MU3);
    Concat(MU0 + MU1 + MU2 + MU3, [0x0F]);
    ValSingle(0x0F);
  }

  lemma TablesNormal()
    ensures |M| == 32 && Normal(M, 32) && |MU| == 33 && Normal(MU, 33)
  {
  }

  lemma ValSingle(v: int)
    ensures Val([v], 1) == v && Sum([v], 1) == v
  {
  }

  // ----- subtraction with borrow

  /** 1 if a < b: the sign bit of the wrapped difference of two 16-bit numbers. */
  function Lt(a: uint32, b: uint32): uint32 {
    (a - b) % 0x1_0000_0000 / 0x8000_0000
  }

  lemma BorrowStep(r: seq<int>, x: seq<int>, y: seq<int>, n: nat, pb: int)
    requires n < |r| && n < |x| && n < |y|
    requires Val(r, n) == Val(x, n) - Val(y, n) + pb * Pow256(n)
    ensures var b := if x[n] < pb + y[n] then 1 else 0;
            Val(r[n := x[n] - (pb + y[n]) + 256 * b], n + 1) == Val(x, n + 1) - Val(y, n + 1) + b * Pow256(n + 1)
  {
    var b, p := if x[n] < pb + y[n] then 1 else 0, Pow256(n);
    ValSame(r, r[n := x[n] - (pb + y[n]) + 256 * b], n);
    assert (x[n] - (pb + y[n]) + 256 * b) * p == x[n] * p - pb * p - y[n] * p + b * (256 * p);
  }

  /** r = x - y modulo 256^32, and whether it borrowed. */
  method SubtractLimbs(r: array<uint32>, x: seq<uint32>, y: seq<uint32>) returns (b: uint32)
    requires r.Length == 32 && |x| >= 32 && |y| >= 32 && Normal(x, 32) && Normal(y, 32)
    modifies r
    ensures Normal(r[..], 32) && b <= 1
    ensures Num(r[..]) == Val(x, 32) - Val(y, 32) + b * Pow256(32)
  {
    hide Val, Pow256;
    var pb: uint32 := 0;
    b := 0;
    ValStep(r[..], 0);
    ValStep(x, 0);
    ValStep(y, 0);
    for i := 0 to 32
      invariant pb == b <= 1
      invariant Normal(r[..], i)
      invariant Val(r[..], i) == Val(x, i) - Val(y, i) + pb * Pow256(i)
    {
      BorrowStep(r[..], x, y, i, pb);
      ghost var r0: seq<int> := r[..];
      pb := pb + y[i];
      b := Lt(x[i], pb);
      r[i] := x[i] - pb + 256 * b;
      pb := b;
      ghost var r1: seq<int> := r[..];
      assert r1 == r0[i := r1[i]];
    }
  }

  /** Subtracts L once, if the value is at least L. */
  method ReduceAddSub(r: array<uint32>)
    requires r.Length == 32 && Normal(r[..], 32)
    modifies r
    ensures Normal(r[..], 32)
    ensures Num(r[..]) == old(if Num(r[..]) >= L then Num(r[..]) - L else Num(r[..]))
  {
    hide Val, Pow256, Xor, And;
    var t := new uint32[32];
    ghost var r0 := r[..];
    ModulusValue();
    TablesNormal();
    var b := SubtractLimbs(t, r[..], M);
    ghost var t0 := t[..];
    ValBound(t0, 32);
    ValBound(r0, 32);
    Pow256Values();
    var mask: uint32 := if b == 0 then 0xffff_ffff else b - 1;
    for i := 0 to 32
      invariant t[..] == t0
      invariant forall k :: 0 <= k < 32 ==> r[k] == if k < i && b == 0 then t0[k] else r0[k]
    {
      MaskedChoice(mask, t[i], r[i]);
      r[i] := Xor(r[i], And(mask, Xor(r[i], t[i])));
    }
    assert r[..] == if b == 0 then t0 else r0;
  }

  // ----- Barrett reduction (Algorithm 14.42 of the Handbook of Applied Cryptography)

  const B31: int := 0x1_00000000_00000000_00000000_00000000_00000000_00000000_00000000_000000
  const B32: int := 256 * B31
  const B33: int := 65536 * B31

  /** The quotient estimate from truncated columns is never above the quotient and at
      most two below it: q1 is x / 256^31 and dropped what the columns left out of
      q1 * mu amount to. */
  lemma QuotientEstimate(x: int, q1: int, dropped: int, q3: int)
    requires q1 * B31 <= x < (q1 + 1) * B31 && 0 <= q1 < B33
    requires 0 <= dropped <= 31 * 255 * B31
    requires q3 * B33 <= q1 * MU_VALUE - dropped < (q3 + 1) * B33
    ensures x / L - 2 <= q3 <= x / L
    ensures 0 <= x - q3 * L < 3 * L
  {
    assert q3 * B33 * L <= q1 * MU_VALUE * L <= q1 * B31 * B33;
    assert q1 * (B31 * B33 - MU_VALUE * L) <= B33 * L;
  }

  const Q3_BOUND: nat := 1_392_640

  /** The truncated columns of q1 * mu, whose limbs from 33 upwards are the quotient estimate. */
  method QuotientColumns(x: seq<uint32>) returns (q3: seq<uint32>)
    requires |x| == 64 && Normal(x, 64)
    ensures |q3| == 33 && forall k :: 0 <= k < 33 ==> q3[k] <= Q3_BOUND
    ensures Num(x) / L - 2 <= Num(q3) <= Num(x) / L
    ensures 0 <= Num(x) - Num(q3) * L < 3 * L
  {
    hide Val, Pow256, Sum, Product;
    MuValue();
    TablesNormal();
    var q2 := new uint32[66](_ => 0);
    Accumulate(q2, MU, x[31..], 31, 66, 255);
    ghost var cols: seq<int> := q2[..];
    var carry := q2[31] / 256;
    q2[32] := q2[32] + carry;
    carry := q2[32] / 256;
    q2[33] := q2[33] + carry;
    q3 := q2[33..];
    ghost var top: seq<int> := q2[..];
    EstimateValue(cols, top[33..]);
    ColumnsValue(x, Num(cols));
    ValBound(x[31..], 33);
    ValBound(x, 31);
    NumSplit(x, 31, 64);
    Pow256Values();
    QuotientEstimate(Num(x), Num(x[31..]), Num(x[31..]) * MU_VALUE - Num(cols), Num(q3));
  }

  /** Carrying two limbs into limb 33 divides the columns by 256^33. */
  lemma EstimateValue(cols: seq<int>, q3: seq<int>)
    requires |cols| == 66 && (forall k :: 0 <= k < 66 ==> 0 <= cols[k]) && (forall k :: 0 <= k < 31 ==> cols[k] == 0)
    requires q3 == cols[33..][0 := cols[33] + (cols[32] + cols[31] / 256) / 256]
    ensures Num(q3) * B33 <= Num(cols) < (Num(q3) + 1) * B33
  {
    hide Val, Pow256;
    ZeroValue(cols, 31);
    ValStep(cols, 31);
    ValStep(cols, 32);
    NumSplit(cols, 33, 66);
    ValUpdate(cols[33..], 0, cols[33] + (cols[32] + cols[31] / 256) / 256, 33);
    Pow256Octets();
    Pow256Values();
  }

  /** What the columns leave out of q1 * mu. */
  lemma ColumnsValue(x: seq<uint32>, cols: int)
    requires |x| == 64 && Normal(x, 64)
    requires cols == Product(MU, x[31..], 31, 66, |MU|)
    ensures 0 <= Num(x[31..]) * MU_VALUE - cols <= 31 * 255 * B31
  {
    hide Val, Pow256, Product;
    TablesNormal();
    MuValue();
    ProductSplit(MU, x[31..], 0, 31, 66, 33);
    ProductAll(MU, x[31..], 66, 33);
    LowColumns(MU, x[31..], 31, 33);
    Pow256Values();
  }

  /** The columns of q3 * m below 33, carried. */
  method RemainderColumns(q3: seq<uint32>) returns (r2: seq<uint32>, ghost k: int)
    requires |q3| == 33 && forall k :: 0 <= k < 33 ==> q3[k] <= Q3_BOUND
    ensures |r2| == 33 && Normal(r2, 32)
    ensures Val(r2, 32) == Num(q3) * L - k * B32
  {
    hide Val, Pow256, Sum, Product;
    ModulusValue();
    TablesNormal();
    var t := new uint32[33](_ => 0);
    Accumulate(t, M, q3, 0, 33, Q3_BOUND);
    CarryLimbs(t);
    r2 := t[..];
    ProductSplit(M, q3, 0, 33, 65, 32);
    ProductAll(M, q3, 65, 32);
    k := HighColumns(M, q3, 33, 65, 32);
    ValStep(r2, 32);
    Pow256Values();
    k := 256 * k + r2[32];
  }

  /** Two's-complement reasoning: a normal number congruent to a small one is it. */
  lemma SmallCongruent(r: int, v: int, k: int)
    requires 0 <= r < B32 && 0 <= v < B32 && r == v + k * B32
    ensures r == v
  {
  }

  method BarrettReduce(r: array<uint32>, x: seq<uint32>)
    requires r.Length == 32 && |x| == 64 && Normal(x, 64)
    modifies r
    ensures Normal(r[..], 32)
    ensures Num(r[..]) == Num(x) % L
  {
    hide Val, Pow256;
    var q3 := QuotientColumns(x);
    var r2;
    ghost var k;
    r2, k := RemainderColumns(q3);
    var b := SubtractLimbs(r, x[..33], r2);
    ValSame(x, x[..33], 32);
    NumSplit(x, 32, 64);
    Pow256Values();
    ValBound(r[..], 32);
    SmallCongruent(Num(r[..]), Num(x) - Num(q3) * L, k + b - Val(x[32..], 32));
    ReduceAddSub(r);
    ReduceAddSub(r);
  }

  // ----- the ring operations

  /** A residue modulo L held in 32 byte limbs. */
  ghost predicate IsScalar(s: seq<int>) {
    |s| == 32 && Normal(s, 32) && 0 <= Num(s) < L
  }

  method From32Bytes(r: array<uint32>, x: seq<byte>)
    requires r.Length == 32 && |x| == 32
    modifies r
    ensures IsScalar(r[..]) && Num(r[..]) == Num(x) % L
  {
    hide Val, Pow256, Sum;
    var zeros: seq<byte> := seq(32, _ => 0);
    ZeroValue(zeros, 32);
    Concat(x, zeros);
    BarrettReduce(r, x + zeros);
  }

  method From64Bytes(r: array<uint32>, x: seq<byte>)
    requires r.Length == 32 && |x| == 64
    modifies r
    ensures IsScalar(r[..]) && Num(r[..]) == Num(x) % L
  {
    hide Val, Pow256;
    BarrettReduce(r, x);
  }

  /** After a carry, the top limb of a number that fits is a byte too. */
  lemma TopNormal(s: seq<int>, n: nat)
    requires |s| == n + 1 && Normal(s, n) && 0 <= Num(s) < Pow256(n + 1)
    ensures Normal(s, n + 1)
  {
    ValBound(s, n);
    var p, v := Pow256(n), s[n];
    if v < 0 {
      MulLe(1, -v, p);
    } else if v >= 256 {
      MulLe(256, v, p);
    }
  }

  method AddScalars(r: array<uint32>, x: seq<uint32>, y: seq<uint32>)
    requires r.Length == 32 && IsScalar(x) && IsScalar(y)
    modifies r
    ensures IsScalar(r[..]) && Num(r[..]) == (Num(x) + Num(y)) % L
  {
    hide Val, Pow256;
    for i := 0 to 32
      invariant forall k :: 0 <= k < i ==> r[k] == x[k] + 1 * y[k]
    {
      r[i] := x[i] + y[i];
    }
    ValLinear(r[..], x, y, 1, 32);
    CarryLimbs(r);
    Pow256Values();
    TopNormal(r[..], 31);
    ReduceAddSub(r);
  }

  method MulScalars(r: array<uint32>, x: seq<uint32>, y: seq<uint32>)
    requires r.Length == 32 && IsScalar(x) && IsScalar(y)
    modifies r
    ensures IsScalar(r[..]) && Num(r[..]) == (Num(x) * Num(y)) % L
  {
    hide Val, Pow256, Sum, Product;
    var t := new uint32[64](_ => 0);
    SumBound(x, 32, 255);
    Accumulate(t, x, y, 0, 64, 255);
    ProductAll(x, y, 64, 32);
    CarryLimbs(t);
    ProductFits(Num(x), Num(y));
    TopNormal(t[..], 63);
    BarrettReduce(r, t[..]);
  }

  lemma ProductFits(a: int, b: int)
    requires 0 <= a < L && 0 <= b < L
    ensures 0 <= a * b < Pow256(64)
  {
    hide Pow256;
    Pow256Values();
    Pow256Add(32, 32);
    MulLe(a, B32, b);
    MulLe(b, B32, B32);
  }
}
