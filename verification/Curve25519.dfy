/**
 The field arithmetic of the X25519 half of the engine: 32 byte limbs in 32-bit
 words, carried in place.
 */
module Curve25519 {
  import opened Common
  import opened Limbs
  import opened Columns
  import opened Bits
  import Field

  /** Limbs that are all bytes. */
  ghost predicate Bytes(s: seq<int>) {
    |s| == 32 && Normal(s, 31) && 0 <= s[31] <= 255
  }

  /** What a multiplication leaves behind: bytes with a top limb of at most 128. */
  ghost predicate Reduced(s: seq<int>) {
    |s| == 32 && Normal(s, 31) && 0 <= s[31] <= 128
  }

  /** What an addition or subtraction leaves behind and a multiplication accepts. */
  ghost predicate Loose(s: seq<int>) {
    |s| == 32 && Normal(s, 31) && 0 <= s[31] <= 511
  }

  /** The residue denoted by the limbs. */
  ghost function Fe(s: seq<int>): int {
    Num(s) % Field.P
  }

  const TWO255: int := 0x80000000_00000000_00000000_00000000_00000000_00000000_00000000_00000000

  /** One folding of the bits from 255 upwards, using 2^255 = 19 (mod P). */
  function Fold(v: int): int {
    v % TWO255 + 19 * (v / TWO255)
  }

  lemma FoldKeepsResidue(v: int)
    ensures Fold(v) % Field.P == v % Field.P
  {
    Field.ModEq(v, Fold(v), v / TWO255);
  }

  // ----- add, sub

  method AddLimbs(out: array<uint32>, a: array<uint32>, b: array<uint32>)
    requires Bytes(a[..]) && Bytes(b[..]) && out.Length == 32
    modifies out
    ensures Loose(out[..])
    ensures Num(out[..]) == old(Num(a[..]) + Num(b[..]))
    ensures Fe(out[..]) == old(Field.Add(Fe(a[..]), Fe(b[..])))
  {
    hide Val, Pow256;
    ghost var a0, b0 := a[..], b[..];
    ghost var x := seq(32, k requires 0 <= k < 32 => a0[k] + 1 * b0[k]);
    ValLinear(x, a0, b0, 1, 32);
    ValStep(x, 0);
    ValStep(out[..], 0);
    var u: uint32 := 0;
    for j := 0 to 31
      invariant u <= 1
      invariant forall k :: j <= k < 32 ==> a[k] == a0[k] && b[k] == b0[k]
      invariant Normal(out[..], j)
      invariant Val(out[..], j) + u * Pow256(j) == 0 + Val(x, j)
    {
      CarryStep(out[..], x, j, u, 0);
      ghost var out0 := out[..];
      u := u + a[j] + b[j];
      out[j] := u % 256;
      u := u / 256;
      assert out[..] == out0[j := out[j]];
    }
    ghost var out0, c := out[..], u;
    u := u + a[31] + b[31];
    out[31] := u;
    ValSame(out0, out[..], 31);
    CarryTop(out[..], x, 31, c, 0);
    Field.ModAdd(Num(a0), Num(b0));
  }

  /** Adds 2P before subtracting, so no limb goes negative. */
  method SubLimbs(out: array<uint32>, a: array<uint32>, b: array<uint32>)
    requires Bytes(a[..]) && Reduced(b[..]) && out.Length == 32
    modifies out
    ensures Loose(out[..])
    ensures Num(out[..]) == old(Num(a[..]) - Num(b[..])) + 2 * Field.P
    ensures Fe(out[..]) == old(Field.Sub(Fe(a[..]), Fe(b[..])))
  {
    hide Val, Pow256;
    ghost var a0, b0 := a[..], b[..];
    ghost var x := SubSummands(a0, b0);
    ValStep(x, 0);
    ValStep(out[..], 0);
    Pow256Zero();
    var u: uint32 := 218;
    for j := 0 to 31
      invariant u <= 256 && (j > 0 ==> 254 <= u)
      invariant forall k :: j <= k < 32 ==> a[k] == a0[k] && b[k] == b0[k]
      invariant Normal(out[..], j)
      invariant Val(out[..], j) + u * Pow256(j) == 218 + Val(x, j)
    {
      CarryStep(out[..], x, j, u, 218);
      ghost var out0 := out[..];
      u := u + a[j] + 65280 - b[j];
      out[j] := u % 256;
      u := u / 256;
      assert out[..] == out0[j := out[j]];
    }
    ghost var out0, c := out[..], u;
    u := u + a[31] - b[31];
    out[31] := u;
    ValSame(out0, out[..], 31);
    CarryTop(out[..], x, 31, c, 218);
    Field.ModSub(Num(a0), Num(b0));
    Field.ModEq(Num(out[..]), Num(a0) - Num(b0), 2);
  }

  /** The words that the loop of SubLimbs sums, and their total. */
  lemma SubSummands(a: seq<int>, b: seq<int>) returns (x: seq<int>)
    requires |a| == |b| == 32
    ensures |x| == 32 && x[31] == a[31] - b[31]
    ensures forall k :: 0 <= k < 31 ==> x[k] == a[k] + 65280 - b[k]
    ensures 218 + Num(x) == Num(a) - Num(b) + 2 * Field.P
  {
    hide Val, Pow256;
    var d := seq(32, k requires 0 <= k < 32 => a[k] + -1 * b[k]);
    var ones := seq(32, k requires 0 <= k < 32 => if k < 31 then 1 else 0);
    x := seq(32, k requires 0 <= k < 32 => d[k] + 65280 * ones[k]);
    ValLinear(d, a, b, -1, 32);
    ValLinear(x, d, ones, 65280, 32);
    OnesValue(ones, 31);
    ValStep(ones, 31);
    Pow256Values();
  }

  lemma Pow256Zero()
    ensures Pow256(0) == 1
  {
  }

  lemma {:induction false} OnesValue(s: seq<int>, n: nat)
    requires n <= |s| && forall k :: 0 <= k < n ==> s[k] == 1
    ensures 255 * Val(s, n) == Pow256(n) - 1
  {
    if n == 0 {
    } else {
      OnesValue(s, n - 1);
    }
  }

  // ----- squeeze

  /** A carry that leaves a total below twice the weight of its position is a bit. */
  lemma CarryIsBit(v: int, u: int, p: int, total: int)
    requires 0 <= v && 0 <= u && 0 < p && v + u * p == total < 2 * p
    ensures u <= 1
  {
    if u >= 2 {
      MulLe(2, u, p);
    }
  }

  method Squeeze(a: array<uint32>)
    requires a.Length == 32 && forall k :: 0 <= k < 32 ==> a[k] <= 0x8000_0000
    modifies a
    ensures Reduced(a[..])
    ensures Num(a[..]) == old(Fold(Num(a[..])))
  {
    hide Val, Pow256;
    ghost var x := a[..];
    ValStep(x, 0);
    var u: uint32 := 0;
    for j := 0 to 31
      invariant u <= 0x100_0000
      invariant forall k :: j <= k < 32 ==> a[k] == x[k]
      invariant Normal(a[..], j)
      invariant Val(a[..], j) + u * Pow256(j) == 0 + Val(x, j)
    {
      CarryStep(a[..], x, j, u, 0);
      ghost var a0 := a[..];
      u := u + a[j];
      a[j] := u % 256;
      u := u / 256;
      assert a[..] == a0[j := a[j]];
    }
    ghost var a0: seq<int>, c := a[..], u;
    u := u + a[31];
    FoldTop(a0, x, c, u);
    a[31] := u % 128;
    assert a[..] == a0[31 := u % 128];
    u := 19 * (u / 128);
    Normalize(a, u);
  }

  /** The arithmetic of dropping the bits from 255 upwards at the top limb. */
  lemma FoldTop(a: seq<int>, x: seq<int>, c: int, u: int)
    requires |a| == |x| == 32 && Normal(a, 31)
    requires Val(a, 31) + c * Pow256(31) == Val(x, 31)
    requires u == c + x[31]
    ensures Num(a[31 := u % 128]) + 19 * (u / 128) == Fold(Num(x))
  {
    hide Val, Pow256;
    var t := a[31 := u % 128];
    Pow256Values();
    ValBound(a, 31);
    ValSame(a, t, 31);
    ValStep(t, 31);
    ValStep(x, 31);
    FoldSplit(Val(a, 31), u, Pow256(31));
  }

  lemma FoldSplit(l: int, u: int, w: int)
    requires 0 <= l < w && 128 * w == TWO255
    ensures l + u % 128 * w + 19 * (u / 128) == Fold(l + u * w)
  {
    var q, r := u / 128, u % 128;
    assert u * w == r * w + q * TWO255;
    FoldUnique(l + u * w, q, l + r * w);
  }

  lemma FoldUnique(v: int, q: int, r: int)
    requires v == r + q * TWO255 && 0 <= r < TWO255
    ensures Fold(v) == r + 19 * q
  {
  }

  /** The second carry pass: adds a small word to already normal limbs. */
  method Normalize(a: array<uint32>, v: uint32)
    requires a.Length == 32 && Normal(a[..], 31) && a[31] <= 127 && v <= 0x4000_0000
    modifies a
    ensures Reduced(a[..])
    ensures Num(a[..]) == old(Num(a[..])) + v
  {
    hide Val, Pow256;
    ghost var x := a[..];
    ValStep(x, 0);
    Pow256Zero();
    var u: uint32 := v;
    for j := 0 to 31
      invariant u <= 0x4000_0000
      invariant forall k :: j <= k < 32 ==> a[k] == x[k]
      invariant Normal(a[..], j)
      invariant Val(a[..], j) + u * Pow256(j) == v + Val(x, j)
    {
      CarryStep(a[..], x, j, u, v);
      ghost var a0 := a[..];
      u := u + a[j];
      a[j] := u % 256;
      u := u / 256;
      assert a[..] == a0[j := a[j]];
    }
    ValBound(x, 31);
    ValBound(a[..], 31);
    Pow256Values();
    CarryIsBit(Val(a[..], 31), u, Pow256(31), v + Val(x, 31));
    ghost var a0, c := a[..], u;
    u := u + a[31];
    a[31] := u;
    ValSame(a0, a[..], 31);
    CarryTop(a[..], x, 31, c, v);
  }

  // ----- mult, square, mult121665

  method Mult(out: array<uint32>, a: array<uint32>, b: array<uint32>)
    requires Loose(a[..]) && Loose(b[..]) && out.Length == 32 && out != a && out != b
    modifies out
    ensures Reduced(out[..])
    ensures Num(out[..]) == Fold(Num(Cols(a[..], b[..], 32)))
    ensures Fe(out[..]) == Field.Mul(Fe(a[..]), Fe(b[..]))
  {
    hide Val, Pow256;
    ghost var a0: seq<int>, b0: seq<int> := a[..], b[..];
    for i := 0 to 32
      invariant a[..] == a0 && b[..] == b0
      invariant forall k :: 0 <= k < i ==> out[k] == Col(a0, b0, k, 32) <= 0x8000_0000
    {
      var u := Column(a, b, i);
      out[i] := u;
    }
    assert out[..] == Cols(a0, b0, 32);
    Squeeze(out);
    ColsProduct(a0, b0);
    FoldKeepsResidue(Num(Cols(a0, b0, 32)));
  }

  /** The two inner loops of mult. */
  method Column(a: array<uint32>, b: array<uint32>, i: nat) returns (u: uint32)
    requires Loose(a[..]) && Loose(b[..]) && i < 32
    ensures u == Col(a[..], b[..], i, 32) <= 0x8000_0000
  {
    u := 0;
    for j := 0 to i + 1
      invariant u == Col(a[..], b[..], i, j) <= j * 10_000_000
    {
      TermBound(a[j], b[i - j]);
      u := u + a[j] * b[i - j];
    }
    for j := i + 1 to 32
      invariant u == Col(a[..], b[..], i, j) <= j * 10_000_000
    {
      TermBound(a[j], b[i + 32 - j]);
      u := u + 38 * a[j] * b[i + 32 - j];
    }
  }

  lemma TermBound(x: int, y: int)
    requires 0 <= x <= 511 && 0 <= y <= 511
    ensures 0 <= x * y <= 38 * x * y == x * (38 * y) <= 10_000_000
  {
    MulLe(x, 511, y);
  }

  lemma WeightedTermBound(x: int, y: int, w: int)
    requires 0 <= x <= 511 && 0 <= y <= 511 && 0 <= w <= 38
    ensures 0 <= w * (x * y) <= 10_000_000
  {
    MulLe(x, 511, y);
    MulLe(w, 38, x * y);
  }

  /** Half the multiplications of Mult, the same limbs (see SquareIsMult). */
  method Square(out: array<uint32>, a: array<uint32>)
    requires Loose(a[..]) && out.Length == 32 && out != a
    modifies out
    ensures Reduced(out[..])
    ensures Num(out[..]) == Fold(Num(Cols(a[..], a[..], 32)))
    ensures Fe(out[..]) == Field.Mul(Fe(a[..]), Fe(a[..]))
  {
    hide Val, Pow256;
    ghost var a0: seq<int> := a[..];
    for i := 0 to 32
      invariant a[..] == a0
      invariant forall k :: 0 <= k < i ==> out[k] == Col(a0, a0, k, 32) <= 0x8000_0000
    {
      var u := SquareColumn(a, i);
      out[i] := u;
    }
    assert out[..] == Cols(a0, a0, 32);
    Squeeze(out);
    ColsProduct(a0, a0);
    FoldKeepsResidue(Num(Cols(a0, a0, 32)));
  }

  /** The inner loops of square. */
  method SquareColumn(a: array<uint32>, i: nat) returns (u: uint32)
    requires Loose(a[..]) && i < 32
    ensures u == Col(a[..], a[..], i, 32) <= 0x8000_0000
  {
    hide Conv, Col;
    u := HalfConv(a, i, 0, 1, 0);
    ghost var v := u;
    u := HalfConv(a, i + 32, i + 1, 38, u);
    ghost var w := u;
    u := u * 2;
    if i % 2 == 0 {
      TermBound(a[i / 2], a[i / 2]);
      TermBound(a[i / 2 + 16], a[i / 2 + 16]);
      u := u + a[i / 2] * a[i / 2];
      u := u + 38 * a[i / 2 + 16] * a[i / 2 + 16];
    }
    SquareColumnTotal(a[..], i, v, w);
  }

  lemma SquareColumnTotal(s: seq<int>, i: nat, v: int, u: int)
    requires |s| == 32 && i < 32
    requires 2 * v + Middle(s, i, 0) == Conv(s, i, 0, i + 1)
    requires 2 * (u - v) + 38 * Middle(s, i + 32, i + 1) == 38 * Conv(s, i + 32, i + 1, 32)
    ensures Col(s, s, i, 32) == 2 * u + if i % 2 == 0 then s[i / 2] * s[i / 2] + 38 * s[i / 2 + 16] * s[i / 2 + 16] else 0
  {
    hide Conv, Col;
    ColSplit(s, i, 32);
    if i % 2 == 0 {
      assert (i + 32) / 2 == i / 2 + 16;
    }
  }

  /** The square in the middle of a range symmetric around c / 2, if there is one. */
  ghost function Middle(a: seq<int>, c: nat, lo: nat): int
    requires 2 * lo <= c + 1 && c - lo < |a|
  {
    if c % 2 == 0 then a[c / 2] * a[c / 2] else 0
  }

  /** Sums w * a[j] * a[c - j] over the lower half of a symmetric range. */
  method HalfConv(a: array<uint32>, c: nat, lo: nat, w: nat, v: uint32) returns (u: uint32)
    requires Loose(a[..]) && 2 * lo <= c + 1 && c - lo < 32 && 1 <= w <= 38
    requires v <= 160_000_000
    ensures u <= v + (c / 2 + 1 - lo) * 10_000_000
    ensures 2 * (u - v) + w * Middle(a[..], c, lo) == w * Conv(a[..], c, lo, c + 1 - lo)
  {
    hide Conv;
    ghost var s: seq<int> := a[..];
    u := v;
    var j := lo;
    while j < c - j
      invariant lo <= j && 2 * j <= c + 1
      invariant u <= v + (j - lo) * 10_000_000
      invariant 2 * (u - v) + w * Conv(s, c, j, c + 1 - j) == w * Conv(s, c, lo, c + 1 - lo)
    {
      HalfStep(s, c, j, w);
      WeightedTermBound(a[j], a[c - j], w);
      u := u + w * (a[j] * a[c - j]);
      j := j + 1;
    }
    ConvMiddle(s, c, j);
  }

  lemma HalfStep(s: seq<int>, c: nat, j: nat, w: int)
    requires j < c - j < |s|
    ensures w * Conv(s, c, j, c + 1 - j) == 2 * (w * (s[j] * s[c - j])) + w * Conv(s, c, j + 1, c - j)
  {
    hide Conv;
    ConvEnds(s, c, j);
  }

  lemma ConvMiddle(s: seq<int>, c: nat, j: nat)
    requires c - j <= j && 2 * j <= c + 1 && c - j < |s|
    ensures Conv(s, c, j, c + 1 - j) == Middle(s, c, j)
  {
  }

  /** Whatever Square and Mult(a, a) leave in their outputs is the same, limb for limb. */
  lemma SquareIsMult(a: seq<int>, squared: seq<int>, product: seq<int>)
    requires |a| == 32 && Reduced(squared) && Reduced(product)
    requires Num(squared) == Fold(Num(Cols(a, a, 32)))
    requires Num(product) == Fold(Num(Cols(a, a, 32)))
    ensures squared == product
  {
    LimbsUnique(squared, product, 31);
  }

  method Mult121665(out: array<uint32>, a: array<uint32>)
    requires Loose(a[..]) && out.Length == 32 && out != a
    modifies out
    ensures Reduced(out[..])
    ensures Fe(out[..]) == Field.Mul(121665, Fe(a[..]))
  {
    hide Val, Pow256;
    ghost var a0: seq<int> := a[..];
    ghost var x: seq<int> := seq(32, k requires 0 <= k < 32 => 121665 * a0[k]);
    var u: uint32 := 0;
    ValStep(x, 0);
    ValStep(out[..], 0);
    for j := 0 to 31
      invariant u <= 0x100_0000
      invariant Normal(out[..], j)
      invariant a[..] == a0
      invariant Val(out[..], j) + u * Pow256(j) == 0 + Val(x, j)
    {
      CarryStep(out[..], x, j, u, 0);
      ghost var out0 := out[..];
      u := u + 121665 * a[j];
      out[j] := u % 256;
      u := u / 256;
      assert out[..] == out0[j := out[j]];
    }
    ghost var out0: seq<int>, c := out[..], u;
    u := u + 121665 * a[31];
    FoldTop(out0, x, c, u);
    out[31] := u % 128;
    assert out[..] == out0[31 := u % 128];
    u := 19 * (u / 128);
    Normalize(out, u);
    ScaledValue(x, a[..], 121665);
    FoldKeepsResidue(Num(x));
  }

  lemma ScaledValue(x: seq<int>, a: seq<int>, c: int)
    requires |x| == |a| == 32 && forall k :: 0 <= k < 32 ==> x[k] == c * a[k]
    requires 0 <= c < Field.P
    ensures Fe(x) == Field.Mul(c, Fe(a))
  {
    hide Val, Pow256;
    var zero := seq(32, _ => 0);
    ZeroValue(zero, 32);
    ValLinear(x, zero, a, c, 32);
    Field.ModMul(c, Num(a));
  }

  // ----- freeze, select

  const MINUS_P: seq<uint32> := seq(32, k requires 0 <= k < 32 => if k == 0 then 19 else if k == 31 then 128 else 0)

  /** Subtracts P if the value is not below it.  A subtraction leaves 256 in excess in
      the top limb, which the caller's conversion to bytes drops. */
  method Freeze(a: array<uint32>)
    requires Reduced(a[..])
    modifies a
    ensures Normal(a[..], 31)
    ensures Num(a[..][31 := a[31] % 256]) == old(Fe(a[..]))
  {
    hide Val, Pow256, Xor, And;
    var aorig := new uint32[32](k requires 0 <= k < 32 reads a => a[k]);
    var minusp := new uint32[32](k requires 0 <= k < 32 => MINUS_P[k]);
    AddLimbs(a, a, minusp);
    assert minusp[..] == MINUS_P;
    var negative: uint32 := if a[31] / 128 % 2 == 1 then 0xffff_ffff else 0;
    ghost var sum := a[..];
    for j := 0 to 32
      invariant aorig[..] == old(a[..])
      invariant forall k :: 0 <= k < 32 ==> a[k] == if k < j && negative != 0 then aorig[k] else sum[k]
    {
      MaskedChoice(negative, aorig[j], a[j]);
      a[j] := Xor(a[j], And(negative, Xor(aorig[j], a[j])));
    }
    MinusPValue();
    FrozenValue(aorig[..], sum, a[..]);
  }

  lemma MinusPValue()
    ensures Num(MINUS_P) == TWO255 + 19
  {
    hide Val, Pow256;
    var zero: seq<int> := seq(32, _ => 0);
    ZeroValue(zero, 32);
    ValUpdate(zero, 0, 19, 32);
    ValUpdate(zero[0 := 19], 31, 128, 32);
    var m: seq<int> := MINUS_P;
    assert m == zero[0 := 19][31 := 128];
    Pow256Zero();
    Pow256Values();
  }

  lemma FrozenValue(orig: seq<int>, sum: seq<int>, a: seq<int>)
    requires Reduced(orig) && Loose(sum)
    requires Num(sum) == Num(orig) + TWO255 + 19
    requires a == if sum[31] / 128 % 2 == 1 then orig else sum
    ensures Num(a[31 := a[31] % 256]) == Fe(orig)
  {
    hide Val, Pow256;
    FreezeDecision(orig, sum);
    if Num(orig) < Field.P {
      assert a[31 := a[31] % 256] == orig;
    } else {
      assert a[31 := a[31] % 256] == sum[31 := sum[31] - 256];
    }
  }

  lemma FreezeDecision(orig: seq<int>, sum: seq<int>)
    requires Reduced(orig) && Loose(sum)
    requires Num(sum) == Num(orig) + TWO255 + 19
    ensures Num(orig) < Field.P ==> orig[31] < 128 && sum[31] / 128 == 1 && Fe(orig) == Num(orig)
    ensures Num(orig) >= Field.P ==> sum[31] / 128 == 2 && Fe(orig) == Num(orig) - Field.P == Num(sum[31 := sum[31] - 256])
  {
    hide Val, Pow256;
    TopLimb(orig);
    TopLimb(sum);
    ValBound(orig, 31);
    ValStep(orig, 31);
    FreezeChoice(Num(orig), orig[31], sum[31]);
    ValUpdate(sum, 31, sum[31] - 256, 32);
    Pow256Values();
  }

  /** Adding 2^255 + 19 sets bit 7 of the top limb exactly when the value is below P. */
  lemma FreezeChoice(v: int, top: int, t: int)
    requires 0 <= top <= 128 && top * Pow256(31) <= v < (top + 1) * Pow256(31)
    requires t * Pow256(31) <= v + TWO255 + 19 < (t + 1) * Pow256(31)
    ensures v < Field.P ==> top < 128 <= t < 256
    ensures v >= Field.P ==> 256 <= t < 384 && v < 2 * Field.P
  {
    hide Pow256;
    Pow256Values();
  }

  /** The top limb of a number is its quotient by 256^31. */
  lemma TopLimb(s: seq<int>)
    requires |s| == 32 && Normal(s, 31)
    ensures s[31] * Pow256(31) <= Num(s) < (s[31] + 1) * Pow256(31)
  {
    hide Val, Pow256;
    ValBound(s, 31);
    ValStep(s, 31);
  }

  method Select(p: array<uint32>, q: array<uint32>, r: array<uint32>, s: array<uint32>, b: uint32)
    requires p.Length == q.Length == r.Length == s.Length == 32
    requires p != q && p != r && p != s && q != r && q != s
    requires b <= 1
    modifies p, q
    ensures p[..] == if b == 1 then s[..] else r[..]
    ensures q[..] == if b == 1 then r[..] else s[..]
  {
    hide Xor, And;
    var bminus1: uint32 := if b == 0 then 0xffff_ffff else b - 1;
    for j := 0 to 32
      invariant r[..] == old(r[..]) && s[..] == old(s[..])
      invariant forall k :: 0 <= k < j ==> p[k] == if b == 1 then s[k] else r[k]
      invariant forall k :: 0 <= k < j ==> q[k] == if b == 1 then r[k] else s[k]
    {
      var t := And(bminus1, Xor(r[j], s[j]));
      MaskedChoice(bminus1, r[j], s[j]);
      MaskedChoice(bminus1, s[j], r[j]);
      p[j] := Xor(s[j], t);
      q[j] := Xor(r[j], t);
    }
  }
}
