/** The second field implementation, used by the Ed25519 half of the engine. */
module Fe25519 {
  import opened Common
  import opened Limbs
  import opened Products
  import opened Bits
  import opened Curve25519
  import Columns
  import Field

  /** What every operation accepts and returns: the bounds are closed under add, sub and
      mul; add and sub even return Canonical elements. */
  ghost predicate Canonical(s: seq<int>) {
    |s| == 32 && Normal(s, 31) && 0 <= s[31] <= 127
  }

  // ----- one reduction pass

  lemma {:induction false} ValBoundBy(s: seq<int>, n: nat, b: nat)
    requires n <= |s| && forall k :: 0 <= k < n ==> 0 <= s[k] <= b
    ensures 0 <= 255 * Val(s, n) <= b * (Pow256(n) - 1)
  {
    if n == 0 {
    } else {
      ValBoundBy(s, n - 1, b);
      MulLe(s[n - 1], b, Pow256(n - 1));
    }
  }

  /** Moves the bits from 255 upwards to the bottom with weight 19, then carries. */
  method ReducePass(r: array<uint32>)
    requires r.Length == 32 && forall k :: 0 <= k < 32 ==> r[k] <= 0x8000_0000
    modifies r
    ensures Normal(r[..], 31)
    ensures Num(r[..]) == old(Num(r[..]) - r[31] / 128 * Field.P)
  {
    hide Val, Pow256;
    ghost var r0: seq<int> := r[..];
    var t: uint32 := r[31] / 128;
    r[31] := r[31] % 128;
    t := 16 * t + 2 * t + t;
    r[0] := r[0] + t;
    ghost var r1: seq<int> := r[..];
    assert r1 == r0[31 := r0[31] % 128][0 := r0[0] + 19 * (r0[31] / 128)];
    ValUpdate(r0, 31, r0[31] % 128, 32);
    ValUpdate(r0[31 := r0[31] % 128], 0, r0[0] + 19 * (r0[31] / 128), 32);
    Pow256Octets();
    Pow256Values();
    CarryLimbs(r);
  }

  /** The size of a pass's result, from the limbs it started with. */
  lemma PassBound(s: seq<int>, v: int, b: nat)
    requires |s| == 32 && (forall k :: 0 <= k < 31 ==> 0 <= s[k] <= b) && 0 <= s[31] <= b <= 100_000_000
    requires v == Num(s) - s[31] / 128 * Field.P
    ensures 0 <= 255 * v <= (b + 255 * (s[31] % 128)) * Pow256(31) + 5000 * b
  {
    hide Val, Pow256;
    ValBoundBy(s, 31, b);
    ValStep(s, 31);
    Pow256Values();
  }

  method ReduceAddSub(r: array<uint32>)
    requires r.Length == 32 && forall k :: 0 <= k < 32 ==> r[k] <= 1023
    modifies r
    ensures Canonical(r[..])
    ensures Fe(r[..]) == old(Fe(r[..]))
  {
    hide Val, Pow256, Num;
    ghost var r0: seq<int> := r[..];
    ReducePass(r);
    ghost var r1: seq<int> := r[..];
    FirstPass(r0, r1);
    ReducePass(r);
    ghost var r2: seq<int> := r[..];
    SecondPass(r1, r2);
    ReducePass(r);
    ghost var r3: seq<int> := r[..];
    SecondPass(r2, r3);
    ReducePass(r);
    SecondPass(r3, r[..]);
  }

  lemma FirstPass(s: seq<int>, t: seq<int>)
    requires |s| == |t| == 32 && (forall k :: 0 <= k < 32 ==> 0 <= s[k] <= 1023) && Normal(t, 31)
    requires Num(t) == Num(s) - s[31] / 128 * Field.P
    ensures 0 <= t[31] <= 132 && Fe(t) == Fe(s)
  {
    hide Val, Pow256;
    PassBound(s, Num(t), 1023);
    TopLimb(t);
    Pow256Values();
    Field.ModEq(Num(s), Num(t), s[31] / 128);
  }

  lemma SecondPass(s: seq<int>, t: seq<int>)
    requires |s| == |t| == 32 && Normal(s, 31) && 0 <= s[31] <= 132 && Normal(t, 31)
    requires Num(t) == Num(s) - s[31] / 128 * Field.P
    ensures Canonical(t) && Fe(t) == Fe(s)
  {
    hide Val, Pow256;
    TopLimb(s);
    TopLimb(t);
    Pow256Values();
    Field.ModEq(Num(s), Num(t), s[31] / 128);
  }

  method ReduceMul(r: array<uint32>)
    requires r.Length == 32 && forall k :: 0 <= k < 32 ==> r[k] <= 100_000_000
    modifies r
    ensures Reduced(r[..])
    ensures Fe(r[..]) == old(Fe(r[..])) && Num(r[..]) == old(TwoPasses(r[..]))
  {
    hide Val, Pow256, Num;
    ghost var r0: seq<int> := r[..];
    ReducePass(r);
    ghost var r1: seq<int> := r[..];
    FirstMulPass(r0, r1);
    ReducePass(r);
    SecondMulPass(r1, r[..]);
  }

  /** The number two passes leave: the second takes off P as often as 2^255 fits. */
  ghost function TwoPasses(s: seq<int>): int
    requires |s| == 32
  {
    var v := OnePass(s);
    v - v / TWO255 * Field.P
  }

  ghost function OnePass(s: seq<int>): int
    requires |s| == 32
  {
    Num(s) - s[31] / 128 * Field.P
  }

  lemma FirstMulPass(s: seq<int>, t: seq<int>)
    requires |s| == |t| == 32 && (forall k :: 0 <= k < 32 ==> 0 <= s[k] <= 100_000_000) && Normal(t, 31)
    requires Num(t) == Num(s) - s[31] / 128 * Field.P
    ensures 0 <= t[31] <= 400_000 && Fe(t) == Fe(s)
  {
    hide Val, Pow256;
    PassBound(s, Num(t), 100_000_000);
    TopLimb(t);
    Pow256Values();
    Field.ModEq(Num(s), Num(t), s[31] / 128);
  }

  lemma SecondMulPass(s: seq<int>, t: seq<int>)
    requires |s| == |t| == 32 && Normal(s, 31) && 0 <= s[31] <= 400_000 && Normal(t, 31)
    requires Num(t) == Num(s) - s[31] / 128 * Field.P
    ensures Reduced(t) && Fe(t) == Fe(s) && s[31] / 128 == Num(s) / TWO255
  {
    hide Val, Pow256;
    TopLimb(s);
    TopLimb(t);
    Pow256Values();
    QuotientUnique(Num(s), s[31] / 128, Num(s) - s[31] / 128 * TWO255, TWO255);
    Field.ModEq(Num(s), Num(t), s[31] / 128);
  }

  // ----- add, sub, mul

  method FeAdd(r: array<uint32>, x: array<uint32>, y: array<uint32>)
    requires r.Length == 32 && Reduced(x[..]) && Reduced(y[..])
    modifies r
    ensures Canonical(r[..])
    ensures Fe(r[..]) == old(Field.Add(Fe(x[..]), Fe(y[..])))
  {
    hide Val, Pow256;
    ghost var x0: seq<int>, y0: seq<int> := x[..], y[..];
    for i := 0 to 32
      invariant forall k :: i <= k < 32 ==> x[k] == x0[k] && y[k] == y0[k]
      invariant forall k :: 0 <= k < i ==> r[k] == x0[k] + 1 * y0[k]
    {
      r[i] := x[i] + y[i];
    }
    ValLinear(r[..], x0, y0, 1, 32);
    Field.ModAdd(Num(x0), Num(y0));
    ReduceAddSub(r);
  }

  /** The limbs of 2P that keep a difference non-negative. */
  function TwoP(k: nat): uint32 {
    if k == 0 then 0x1da else if k == 31 then 0xfe else 0x1fe
  }

  method FeSub(r: array<uint32>, x: array<uint32>, y: array<uint32>)
    requires r.Length == 32 && Reduced(x[..]) && Reduced(y[..])
    modifies r
    ensures Canonical(r[..])
    ensures Fe(r[..]) == old(Field.Sub(Fe(x[..]), Fe(y[..])))
  {
    hide Val, Pow256;
    ghost var x0: seq<int>, y0: seq<int> := x[..], y[..];
    var t := new uint32[32];
    for i := 0 to 32
      invariant x[..] == x0 && y[..] == y0
      invariant forall k :: 0 <= k < i ==> t[k] == x0[k] + TwoP(k)
    {
      t[i] := x[i] + TwoP(i);
    }
    for i := 0 to 32
      invariant forall k :: 0 <= k < 32 ==> t[k] == x0[k] + TwoP(k)
      invariant forall k :: i <= k < 32 ==> y[k] == y0[k]
      invariant forall k :: 0 <= k < i ==> r[k] == x0[k] + TwoP(k) - y0[k]
    {
      r[i] := t[i] - y[i];
    }
    SubValue(r[..], x0, y0);
    ReduceAddSub(r);
  }

  lemma SubValue(r: seq<int>, x: seq<int>, y: seq<int>)
    requires |r| == |x| == |y| == 32 && forall k :: 0 <= k < 32 ==> r[k] == x[k] + TwoP(k) - y[k]
    ensures Fe(r) == Field.Sub(Fe(x), Fe(y))
  {
    hide Val, Pow256;
    var d := seq(32, k requires 0 <= k < 32 => x[k] + -1 * y[k]);
    var q: seq<int> := seq(32, k requires 0 <= k < 32 => TwoP(k));
    ValLinear(d, x, y, -1, 32);
    ValLinear(r, d, q, 1, 32);
    TwoPValue(q);
    Field.ModSub(Num(x), Num(y));
    Field.ModEq(Num(r), Num(x) - Num(y), 2);
  }

  lemma TwoPValue(q: seq<int>)
    requires |q| == 32 && forall k :: 0 <= k < 32 ==> q[k] == TwoP(k)
    ensures Num(q) == 2 * Field.P
  {
    hide Val, Pow256;
    var ones: seq<int> := seq(32, _ => 1);
    var zero: seq<int> := seq(32, _ => 0);
    var s: seq<int> := seq(32, _ => 510);
    OnesValue(ones, 32);
    ZeroValue(zero, 32);
    ValLinear(s, zero, ones, 510, 32);
    ValUpdate(s, 0, 474, 32);
    ValUpdate(s[0 := 474], 31, 254, 32);
    assert q == s[0 := 474][31 := 254];
    Pow256Octets();
    Pow256Values();
  }

  /** The number a product of limbs is left as: the columns, folded at 2^256 and then passed over twice. */
  ghost function MulValue(x: seq<int>, y: seq<int>): int
    requires |x| == |y| == 32
  {
    TwoPasses(Columns.Cols(x, y, 32))
  }

  method FeMul(r: array<uint32>, x: array<uint32>, y: array<uint32>)
    requires r.Length == 32 && Reduced(x[..]) && Reduced(y[..])
    modifies r
    ensures Reduced(r[..]) && Num(r[..]) == old(MulValue(x[..], y[..]))
    ensures Fe(r[..]) == old(Field.Mul(Fe(x[..]), Fe(y[..])))
  {
    hide Val, Pow256, Sum, Product, TwoPasses;
    ghost var x0: seq<int>, y0: seq<int> := x[..], y[..];
    var t := new uint32[63](_ => 0);
    SumBound(x0, 32, 255);
    Accumulate(t, x[..], y[..], 0, 63, 255);
    FoldProduct(r, t, x0, y0);
    Columns.ColsProduct(x0, y0);
    ReduceMul(r);
  }

  /** The columns from 32 upwards come back with weight 38. */
  method FoldProduct(r: array<uint32>, t: array<uint32>, ghost x: seq<int>, ghost y: seq<int>)
    requires r.Length == 32 && t.Length == 63 && r != t && |x| == |y| == 32
    requires forall k :: 0 <= k < 63 ==> t[k] <= 255 * 8160 && t[k] == ColumnSum(x, y, k, 32)
    modifies r
    ensures forall k :: 0 <= k < 32 ==> r[k] <= 100_000_000
    ensures r[..] == Columns.Cols(x, y, 32)
  {
    hide ColumnSum, Columns.Col;
    for i := 32 to 63
      invariant forall k :: 0 <= k < 63 ==> t[k] == old(t[k]) <= 255 * 8160
      invariant forall k :: 0 <= k < i - 32 ==> r[k] <= 100_000_000
      invariant forall k :: 0 <= k < i - 32 ==> r[k] == Columns.Col(x, y, k, 32)
    {
      FoldedColumn(x, y, i - 32, 32);
      r[i - 32] := t[i - 32] + (32 * t[i] + 4 * t[i] + 2 * t[i]);
    }
    FoldedColumn(x, y, 31, 32);
    NoColumn(x, y, 32);
    r[31] := t[31];
  }

  lemma {:induction false} FoldedColumn(x: seq<int>, y: seq<int>, k: nat, n: nat)
    requires |x| == |y| == 32 && k < 32 && n <= 32
    ensures Columns.Col(x, y, k, n) == ColumnSum(x, y, k, n) + 38 * ColumnSum(x, y, k + 32, n)
  {
    if n == 0 {
    } else {
      FoldedColumn(x, y, k, n - 1);
      if n - 1 > k {
        var a, b := x[n - 1], y[k + 32 - (n - 1)];
        assert a * (38 * b) == 38 * (a * b);
      }
    }
  }

  /** Two numbers of 32 limbs have no column 63. */
  lemma {:induction false} NoColumn(x: seq<int>, y: seq<int>, n: nat)
    requires |x| == |y| == 32 && n <= 32
    ensures ColumnSum(x, y, 63, n) == 0
  {
    if n == 0 {
    } else {
      NoColumn(x, y, n - 1);
    }
  }

  // ----- freeze and what rests on it

  /** 1 if two 16-bit words are equal. */
  function Equal(a: uint32, b: uint32): uint32 {
    var x: int := Xor(a, b);
    (x - 1) % 0x1_0000_0000 / 0x8000_0000
  }

  lemma EqualMeaning(a: uint32, b: uint32)
    requires a <= 0xffff && b <= 0xffff
    ensures Equal(a, b) == if a == b then 1 else 0
  {
    hide Xor;
    XorTwice(a, b);
    XorZero(b);
    Ones16();
    XorBound(a, b, 16);
  }

  lemma XorZero(b: nat)
    ensures Xor(b, 0) == b && Xor(b, b) == 0
  {
  }

  lemma Ones16()
    ensures Ones(16) == 0xffff
  {
    assert Ones(8) == 0xff;
  }

  /** 1 if a >= b, for 16-bit words. */
  function Ge(a: uint32, b: uint32): uint32 {
    var x: int := a;
    Xor((x - b) % 0x1_0000_0000 / 0x8000_0000, 1)
  }

  /** The value freeze leaves: P is subtracted only below 2^255. */
  function Frozen(v: int): int {
    if Field.P <= v < TWO255 then v - Field.P else v
  }

  /** Freezing gives the residue if and only if the value was below 2^255, which add and
      sub guarantee and mul does not (MulLeavesMore). */
  lemma FrozenIsResidue(s: seq<int>)
    requires Reduced(s)
    ensures Frozen(Num(s)) == Fe(s) <==> Num(s) < TWO255
    ensures Num(s) < TWO255 <==> Canonical(s)
  {
    hide Val, Pow256;
    TopLimb(s);
    ValBound(s, 31);
    ValStep(s, 31);
    Pow256Values();
  }

  method Freeze(r: array<uint32>)
    requires Reduced(r[..])
    modifies r
    ensures Reduced(r[..])
    ensures Num(r[..]) == old(Frozen(Num(r[..])))
  {
    hide Val, Pow256, Xor, And, Equal;
    ghost var r0: seq<int> := r[..];
    EqualMeaning(r[31], 127);
    var m: uint32 := Equal(r[31], 127);
    var i := 30;
    while i > 0
      invariant 0 <= i <= 30 && m <= 1 && r[..] == r0
      invariant m == 1 <==> r0[31] == 127 && forall k :: i < k <= 30 ==> r0[k] == 255
    {
      EqualMeaning(r[i], 255);
      AndBits(m, Equal(r[i], 255));
      m := And(m, Equal(r[i], 255));
      i := i - 1;
    }
    GeMeaning(r[0]);
    AndBits(m, Ge(r[0], 237));
    m := And(m, Ge(r[0], 237));
    var mask: uint32 := if m == 0 then 0 else 0xffff_ffff;
    MaskConstant(mask, 127);
    MaskConstant(mask, 255);
    MaskConstant(mask, 237);
    r[31] := r[31] - And(mask, 127);
    i := 30;
    while i > 0
      invariant 0 <= i <= 30 && r[0] == r0[0] && r[31] == r0[31] - And(mask, 127)
      invariant forall k :: 0 < k <= i ==> r[k] == r0[k]
      invariant forall k :: i < k <= 30 ==> r[k] == r0[k] - And(mask, 255)
    {
      r[i] := r[i] - And(mask, 255);
      i := i - 1;
    }
    r[0] := r[0] - And(mask, 237);
    FreezeValue(r0, r[..], m == 1);
  }

  lemma GeMeaning(a: uint32)
    requires a <= 255
    ensures Ge(a, 237) == if a >= 237 then 1 else 0
  {
    assert Xor(0, 1) == 1 && Xor(1, 1) == 0;
  }

  lemma AndBits(a: nat, b: nat)
    requires a <= 1 && b <= 1
    ensures And(a, b) == if a == 1 && b == 1 then 1 else 0
  {
  }

  lemma MaskConstant(mask: nat, c: nat)
    requires (mask == 0 || mask == 0xffff_ffff) && c <= 255
    ensures And(mask, c) == if mask == 0 then 0 else c
  {
    hide And;
    Ones32();
    if mask != 0 {
      AndOnes(32, c);
    } else {
      AndZero(c);
    }
  }

  lemma AndZero(c: nat)
    ensures And(0, c) == 0
  {
  }

  /** P in limbs. */
  function PLimb(k: nat): int {
    if k == 0 then 237 else if k == 31 then 127 else 255
  }

  lemma FreezeValue(s: seq<int>, t: seq<int>, sub: bool)
    requires Reduced(s) && |t| == 32
    requires sub <==> s[31] == 127 && (forall k :: 1 <= k <= 30 ==> s[k] == 255) && s[0] >= 237
    requires forall k :: 0 <= k < 32 ==> t[k] == s[k] - if sub then PLimb(k) else 0
    ensures Reduced(t) && Num(t) == Frozen(Num(s))
  {
    hide Val, Pow256;
    PLimbsValue(s, t, sub);
    TopLimb(s);
    Pow256Values();
    if !sub && s[31] <= 127 {
      NotAllOnes(s);
    }
  }

  lemma PLimbsValue(s: seq<int>, t: seq<int>, sub: bool)
    requires Reduced(s) && |t| == 32
    requires forall k :: 0 <= k < 32 ==> t[k] == s[k] - if sub then PLimb(k) else 0
    ensures Num(t) == Num(s) - if sub then Field.P else 0
    ensures sub && s[31] == 127 ==> Num(s) < TWO255
    ensures sub && (forall k :: 0 <= k < 32 ==> s[k] >= PLimb(k)) ==> Num(s) >= Field.P
  {
    hide Val, Pow256;
    ValBound(s, 31);
    ValStep(s, 31);
    Pow256Values();
    if sub {
      var p: seq<int> := seq(32, k requires 0 <= k < 32 => PLimb(k));
      ValLinear(t, s, p, -1, 32);
      PValue(p);
      if forall k :: 0 <= k < 32 ==> s[k] >= PLimb(k) {
        NonNegative(t, 32);
      }
    } else {
      assert t == s;
    }
  }

  lemma {:induction false} NonNegative(s: seq<int>, n: nat)
    requires n <= |s| && forall k :: 0 <= k < n ==> 0 <= s[k]
    ensures 0 <= Val(s, n)
  {
    if n == 0 {
    } else {
      NonNegative(s, n - 1);
      MulLe(0, s[n - 1], Pow256(n - 1));
    }
  }

  lemma PValue(p: seq<int>)
    requires |p| == 32 && forall k :: 0 <= k < 32 ==> p[k] == PLimb(k)
    ensures Num(p) == Field.P
  {
    hide Val, Pow256;
    var q := seq(32, k requires 0 <= k < 32 => TwoP(k));
    var zero: seq<int> := seq(32, _ => 0);
    ZeroValue(zero, 32);
    TwoPValue(q);
    ValLinear(q, zero, p, 2, 32);
  }

  /** A canonical element whose limbs are not those of P or just above is below P. */
  lemma NotAllOnes(s: seq<int>)
    requires Canonical(s)
    requires !(s[31] == 127 && (forall k :: 1 <= k <= 30 ==> s[k] == 255) && s[0] >= 237)
    ensures Num(s) < Field.P
  {
    hide Val, Pow256;
    var top: seq<int> := seq(32, k requires 0 <= k < 32 => if k == 31 then 127 else 255);
    TopOnes(top);
    var d := seq(32, k requires 0 <= k < 32 => top[k] + -1 * s[k]);
    ValLinear(d, top, s, -1, 32);
    if s[31] == 127 && forall k :: 1 <= k <= 30 ==> s[k] == 255 {
      HeadOnly(d, 32);
    } else {
      var j :| 1 <= j <= 31 && d[j] >= 1;
      AtLeast(d, j, 32);
    }
  }

  lemma TopOnes(top: seq<int>)
    requires |top| == 32 && forall k :: 0 <= k < 32 ==> top[k] == if k == 31 then 127 else 255
    ensures Num(top) == TWO255 - 1
  {
    hide Val, Pow256;
    var p := top[0 := 237];
    ValUpdate(p, 0, 255, 32);
    assert p[0 := 255] == top;
    PValue(p);
    Pow256Octets();
  }

  lemma {:induction false} HeadOnly(d: seq<int>, n: nat)
    requires 1 <= n <= |d| && forall k :: 1 <= k < n ==> d[k] == 0
    ensures Val(d, n) == d[0]
  {
    if n > 1 {
      HeadOnly(d, n - 1);
    }
  }

  lemma {:induction false} AtLeast(d: seq<int>, j: nat, n: nat)
    requires 1 <= j < n <= |d| && d[j] >= 1 && forall k :: 0 <= k < n ==> 0 <= d[k]
    ensures Val(d, n) >= 256
  {
    if j < n - 1 {
      AtLeast(d, j, n - 1);
      MulLe(0, d[n - 1], Pow256(n - 1));
    } else {
      NonNegative(d, j);
      MulLe(1, d[j], Pow256(j));
      Pow256Big(j);
    }
  }

  lemma Pow256Big(n: nat)
    requires n >= 1
    ensures Pow256(n) >= 256
  {
  }

  /** fe25519_pack: the frozen limbs as bytes. */
  method Pack(x: array<uint32>) returns (b: seq<byte>)
    requires Reduced(x[..])
    ensures |b| == 32 && Num(b) == Frozen(Num(x[..]))
    ensures Canonical(x[..]) ==> Num(b) == Fe(x[..])
  {
    hide Num, Fe, Frozen;
    var y := new uint32[32](k requires 0 <= k < 32 reads x => x[k]);
    assert y[..] == x[..];
    Freeze(y);
    ghost var limbs: seq<int> := y[..];
    b := seq(32, k requires 0 <= k < 32 reads y => y[k] % 256);
    assert b == limbs;
    FrozenIsResidue(x[..]);
  }

  /** fe25519_iseq_vartime decides equality of residues on canonical elements. */
  method IsEqual(x: array<uint32>, y: array<uint32>) returns (eq: bool)
    requires Reduced(x[..]) && Reduced(y[..])
    ensures eq <==> Frozen(Num(x[..])) == Frozen(Num(y[..]))
    ensures Canonical(x[..]) && Canonical(y[..]) ==> (eq <==> Fe(x[..]) == Fe(y[..]))
  {
    hide Num, Fe, Frozen;
    var t1 := new uint32[32](k requires 0 <= k < 32 reads x => x[k]);
    var t2 := new uint32[32](k requires 0 <= k < 32 reads y => y[k]);
    assert t1[..] == x[..] && t2[..] == y[..];
    Freeze(t1);
    Freeze(t2);
    FrozenIsResidue(x[..]);
    FrozenIsResidue(y[..]);
    eq := true;
    for i := 0 to 32
      invariant eq
      invariant forall k :: 0 <= k < i ==> t1[k] == t2[k]
    {
      if t1[i] != t2[i] {
        DifferentLimbs(t1[..], t2[..], i);
        return false;
      }
    }
    assert t1[..] == t2[..];
  }

  lemma DifferentLimbs(s: seq<int>, t: seq<int>, i: nat)
    requires Reduced(s) && Reduced(t) && i < 32 && s[i] != t[i]
    ensures Num(s) != Num(t)
  {
    hide Num;
    if Num(s) == Num(t) {
      LimbsUnique(s, t, 31);
    }
  }

  // ----- a product that freeze does not make canonical

  lemma CanonicalLimbs(v: nat)
    requires v < TWO255
    ensures Canonical(LimbsOf(v, 32)) && Num(LimbsOf(v, 32)) == v
  {
    hide Val, Pow256, LimbsOf;
    Pow256Values();
    LimbsOfNumber(v, 32);
    TopLimb(LimbsOf(v, 32));
  }

  /** The columns of a product with a number that has only its top limb. */
  lemma TopLimbOnly(x: seq<int>, y: seq<int>)
    requires |x| == |y| == 32 && forall k :: 0 <= k < 31 ==> x[k] == 0
    ensures var c := Columns.Cols(x, y, 32);
            c[31] == x[31] * y[0] && 256 * Num(c) == x[31] * (38 * (Num(y) - y[0]) + 256 * y[0] * Pow256(31))
  {
    hide Val, Pow256, Num;
    var c, none, turned := Columns.Cols(x, y, 32), Columns.Cols(x, y, 31), Columns.Rotated(y, 31);
    forall i | 0 <= i < 32 ensures none[i] == 0 && c[i] == none[i] + x[31] * turned[i] {
      NoProducts(x, y, i, 31);
    }
    assert Num(c) == x[31] * Num(turned) by {
      ZeroValue(none, 32);
      ValLinear(c, none, turned, x[31], 32);
      NumIs(c);
      NumIs(turned);
    }
    TurnedValue(y);
    var a, t, u := x[31], Num(turned), 38 * (Num(y) - y[0]) + 256 * y[0] * Pow256(31);
    assert 256 * t == u ==> 256 * (a * t) == a * u;
  }

  lemma NumIs(s: seq<int>)
    ensures Num(s) == Val(s, |s|)
  {
  }

  lemma {:induction false} NoProducts(x: seq<int>, y: seq<int>, i: nat, n: nat)
    requires |x| == |y| == 32 && i < 32 && n <= 31 && forall k :: 0 <= k < 31 ==> x[k] == 0
    ensures Columns.Col(x, y, i, n) == 0
  {
    if n == 0 {
    } else {
      NoProducts(x, y, i, n - 1);
    }
  }

  /** Turned all the way but one limb: everything but y[0] comes down one place with weight 38. */
  lemma TurnedValue(y: seq<int>)
    requires |y| == 32
    ensures 256 * Num(Columns.Rotated(y, 31)) == 38 * (Num(y) - y[0]) + 256 * y[0] * Pow256(31)
  {
    hide Val, Pow256;
    var turned, down, zero := Columns.Rotated(y, 31), y[1..] + [0], seq(32, _ => 0);
    ZeroValue(zero, 31);
    ValLinear(turned, zero, down, 38, 31);
    Columns.ShiftValue(down, y, 31);
    ValStep(turned, 31);
  }

  /** A product is frozen to its residue exactly if what one pass leaves, folded at 2^255, stays below it. */
  lemma MulFreezes(x: seq<int>, y: seq<int>, r: seq<int>)
    requires |x| == |y| == 32 && Reduced(r) && Num(r) == MulValue(x, y)
    ensures Frozen(Num(r)) == Fe(r) <==> Fold(OnePass(Columns.Cols(x, y, 32))) < TWO255
  {
    hide Num, Columns.Cols;
    FrozenIsResidue(r);
    var v := OnePass(Columns.Cols(x, y, 32));
    assert v == v / TWO255 * TWO255 + v % TWO255;
  }

  const HIGH := 0x08000000_00000000_00000000_00000000_00000000_00000000_00000000_00000000
  const AWKWARD := 0x7286bca1_af286bca_1af286bc_a1af286b_ca1af286_bca1af28_6bca1af2_86bca1af

  /** Two residues below P whose product is 20, and which mul leaves as 2^255 + 1. */
  lemma MulLeavesMore(x: seq<int>, y: seq<int>)
    requires Canonical(x) && Num(x) == HIGH && Canonical(y) && Num(y) == AWKWARD
    ensures MulValue(x, y) == TWO255 + 1 && Frozen(MulValue(x, y)) == TWO255 + 1
    ensures Field.Mul(Fe(x), Fe(y)) == 20
  {
    hide Val, Pow256, Num, Columns.Cols;
    HighLimbs(x);
    LowLimb(y);
    TopLimbOnly(x, y);
    Pow256Values();
  }

  /** Packed, such a product is not the residue; compared, it is not equal to an equal element. */
  method MulThenPack() returns (r: array<uint32>, twenty: array<uint32>, packed: seq<byte>, equal: bool)
    ensures Reduced(r[..]) && Canonical(twenty[..]) && Fe(r[..]) == Fe(twenty[..]) == 20
    ensures |packed| == 32 && Num(packed) == TWO255 + 1 && !equal
  {
    hide Num, MulValue, Frozen, Pow256, LimbsOf;
    CanonicalLimbs(HIGH);
    CanonicalLimbs(AWKWARD);
    CanonicalLimbs(20);
    var x := FromLimbs(LimbsOf(HIGH, 32));
    var y := FromLimbs(LimbsOf(AWKWARD, 32));
    twenty := FromLimbs(LimbsOf(20, 32));
    r := new uint32[32];
    MulLeavesMore(x[..], y[..]);
    FeMul(r, x, y);
    packed := Pack(r);
    equal := IsEqual(r, twenty);
    SmallFrozen();
  }

  lemma SmallFrozen()
    ensures Frozen(20) == 20
  {
  }

  method FromLimbs(s: seq<uint32>) returns (a: array<uint32>)
    requires |s| == 32
    ensures fresh(a) && a[..] == s
  {
    a := new uint32[32](k requires 0 <= k < 32 => s[k]);
  }

  lemma HighLimbs(x: seq<int>)
    requires Canonical(x) && Num(x) == HIGH
    ensures x[31] == 8 && forall k :: 0 <= k < 31 ==> x[k] == 0
  {
    hide Val, Pow256;
    TopLimb(x);
    Pow256Values();
    var zero: seq<int> := seq(32, _ => 0);
    var h := zero[31 := 8];
    ZeroValue(zero, 32);
    ValUpdate(zero, 31, 8, 32);
    LimbsUnique(x, h, 31);
  }

  lemma LowLimb(y: seq<int>)
    requires Canonical(y) && Num(y) == AWKWARD
    ensures y[0] == 0xaf
  {
    hide Val, Pow256;
    Columns.ShiftValue(y[1..] + [0], y, 31);
  }

  // ----- exponentiations

  ghost predicate IsPower(a: seq<int>, x: int, e: nat) {
    Reduced(a) && Fe(a) == Field.Pow(x, e)
  }

  method Times(a: array<uint32>, b: array<uint32>, ghost x: int, ghost m: nat, ghost n: nat) returns (out: array<uint32>)
    requires IsPower(a[..], x, m) && IsPower(b[..], x, n)
    ensures fresh(out) && IsPower(out[..], x, m + n)
  {
    hide Fe, Num, Normal, Field.Mul, Field.Pow;
    out := new uint32[32];
    FeMul(out, a, b);
    Field.PowAdd(x, m, n);
  }

  /** n squarings in a row; fe25519_square is fe25519_mul(x, x). */
  method SquareTimes(a: array<uint32>, n: nat, ghost x: int, ghost m: nat) returns (out: array<uint32>)
    requires IsPower(a[..], x, m) && n > 0
    ensures fresh(out) && IsPower(out[..], x, m * Pow2(n))
  {
    hide IsPower;
    out := Times(a, a, x, m, m);
    assert Pow2(1) == 2;
    for i := 1 to n
      invariant fresh(out) && IsPower(out[..], x, m * Pow2(i))
    {
      out := Times(out, out, x, m * Pow2(i), m * Pow2(i));
    }
  }

  /** From x^(2^m - 1) and x^(2^n - 1) to x^(2^(m + n) - 1). */
  method Extend(a: array<uint32>, m: nat, b: array<uint32>, n: nat, ghost x: int) returns (out: array<uint32>)
    requires IsPower(a[..], x, Pow2(m) - 1) && IsPower(b[..], x, Pow2(n) - 1) && n > 0
    ensures fresh(out) && IsPower(out[..], x, Pow2(m + n) - 1)
  {
    hide IsPower;
    var t := SquareTimes(a, n, x, Pow2(m) - 1);
    out := Times(t, b, x, (Pow2(m) - 1) * Pow2(n), Pow2(n) - 1);
    Field.Pow2Add(m, n);
  }

  /** The part that fe25519_invert and fe25519_pow2523 share: z^(2^250 - 1) and z^11. */
  method Chain(z: array<uint32>) returns (t: array<uint32>, z11: array<uint32>)
    requires Reduced(z[..])
    ensures fresh(t) && fresh(z11)
    ensures IsPower(t[..], Fe(z[..]), Pow2(250) - 1) && IsPower(z11[..], Fe(z[..]), 11)
  {
    hide IsPower, Pow2, Fe;
    ghost var x := Fe(z[..]);
    PowerOne(z[..]);
    SmallPow2();
    var z2 := SquareTimes(z, 1, x, 1);
    t := SquareTimes(z2, 2, x, 2);
    var z9 := Times(t, z, x, 8, 1);
    z11 := Times(z9, z2, x, 9, 2);
    t := SquareTimes(z11, 1, x, 11);
    var z2_5_0 := Times(t, z9, x, 22, 9);
    var z2_10_0 := Extend(z2_5_0, 5, z2_5_0, 5, x);
    var z2_20_0 := Extend(z2_10_0, 10, z2_10_0, 10, x);
    t := Extend(z2_20_0, 20, z2_20_0, 20, x);
    var z2_50_0 := Extend(t, 40, z2_10_0, 10, x);
    var z2_100_0 := Extend(z2_50_0, 50, z2_50_0, 50, x);
    t := Extend(z2_100_0, 100, z2_100_0, 100, x);
    t := Extend(t, 200, z2_50_0, 50, x);
  }

  /** x^(2^255 - 21), the inverse modulo P; r may be x. */
  method Invert(r: array<uint32>, x: array<uint32>)
    requires Reduced(x[..]) && r.Length == 32
    modifies r
    ensures Reduced(r[..])
    ensures Fe(r[..]) == old(Field.Pow(Fe(x[..]), Field.P - 2))
  {
    hide IsPower, Field.Pow, Pow2, Fe;
    ghost var z := Fe(x[..]);
    var t, z11 := Chain(x);
    t := SquareTimes(t, 5, z, Pow2(250) - 1);
    FinalPower(t[..], z11[..], z, 5, 11);
    InversePower();
    FeMul(r, t, z11);
  }

  /** x^(2^252 - 3); r may be x. */
  method Pow2523(r: array<uint32>, x: array<uint32>)
    requires Reduced(x[..]) && r.Length == 32
    modifies r
    ensures Reduced(r[..])
    ensures Fe(r[..]) == old(Field.Pow(Fe(x[..]), (Field.P - 5) / 8))
  {
    hide IsPower, Field.Pow, Pow2, Fe;
    ghost var z := Fe(x[..]);
    var t, z11 := Chain(x);
    t := SquareTimes(t, 2, z, Pow2(250) - 1);
    PowerOne(x[..]);
    FinalPower(t[..], x[..], z, 2, 1);
    InversePower();
    FeMul(r, t, x);
  }

  lemma PowerOne(z: seq<int>)
    requires Reduced(z)
    ensures IsPower(z, Fe(z), 1)
  {
    hide Num;
    assert Field.Pow(Fe(z), 1) == Field.Mul(Fe(z), 1);
  }

  lemma SmallPow2()
    ensures Pow2(1) == 2 && Pow2(2) == 4 && Pow2(5) == 32
  {
  }

  lemma FinalPower(t: seq<int>, s: seq<int>, x: int, n: nat, e: nat)
    requires IsPower(t, x, (Pow2(250) - 1) * Pow2(n)) && IsPower(s, x, e)
    ensures Reduced(t) && Reduced(s)
    ensures Field.Mul(Fe(t), Fe(s)) == Field.Pow(x, (Pow2(250) - 1) * Pow2(n) + e)
  {
    hide Pow2, Field.Pow, Field.Mul, Fe, Normal;
    Field.PowAdd(x, (Pow2(250) - 1) * Pow2(n), e);
  }

  /** (2^250 - 1) * 2^5 + 11 = P - 2 and (2^250 - 1) * 2^2 + 1 = (P - 5) / 8 */
  lemma InversePower()
    ensures (Pow2(250) - 1) * Pow2(5) + 11 == Field.P - 2
    ensures (Pow2(250) - 1) * Pow2(2) + 1 == (Field.P - 5) / 8
  {
    hide Pow2;
    SmallPow2();
    Field.Pow2Add(250, 5);
    Field.Pow2Of255();
  }
}
