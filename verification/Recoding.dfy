/** The two scalar recodings: signed base-8 digits, and interleaved base-4 digits. */
module Recoding {
  import opened Common
  import opened Limbs
  import opened Bits
  import opened Sc25519

  type int8 = x: int | -128 <= x < 128

  ghost function PowB(b: nat, n: nat): (r: int)
    requires b > 0
    ensures r > 0
  {
    if n == 0 then 1 else b * PowB(b, n - 1)
  }

  /** The number denoted by the first n digits in base b. */
  ghost function Digits(r: seq<int>, b: nat, n: nat): int
    requires b > 0 && n <= |r|
  {
    if n == 0 then 0 else Digits(r, b, n - 1) + r[n - 1] * PowB(b, n - 1)
  }

  lemma DigitStep(r: seq<int>, b: nat, n: nat)
    requires b > 0 && n < |r|
    ensures Digits(r, b, 0) == 0
    ensures Digits(r, b, n + 1) == Digits(r, b, n) + r[n] * PowB(b, n)
    ensures PowB(b, 0) == 1 && PowB(b, n + 1) == b * PowB(b, n)
  {
  }

  lemma {:induction false} DigitsSame(r: seq<int>, s: seq<int>, b: nat, n: nat)
    requires b > 0 && n <= |r| && n <= |s| && forall k :: 0 <= k < n ==> r[k] == s[k]
    ensures Digits(r, b, n) == Digits(s, b, n)
  {
    if n == 0 {
    } else {
      DigitsSame(r, s, b, n - 1);
    }
  }

  lemma {:induction false} DigitsUpdate(r: seq<int>, b: nat, k: nat, v: int, n: nat)
    requires b > 0 && k < n <= |r|
    ensures Digits(r[k := v], b, n) == Digits(r, b, n) + (v - r[k]) * PowB(b, k)
  {
    if n == k + 1 {
      DigitsSame(r[k := v], r, b, k);
    } else {
      DigitsUpdate(r, b, k, v, n - 1);
    }
  }

  // ----- sc25519_window3

  lemma XorBit(a: nat, b: nat)
    requires a < 2
    ensures Xor(a, 2 * b) == a + 2 * b
  {
    assert Xor(0, b) == b;
  }

  lemma XorPair(a: nat, b: nat)
    requires a < 4
    ensures Xor(a, 4 * b) == a + 4 * b
  {
    hide Xor;
    var r := Xor(a, 4 * b);
    XorDigits(a, 4 * b);
    assert 4 * b / 2 == 2 * b;
    XorBit(a / 2, b);
    assert r / 2 == a / 2 + 2 * b;
    assert (a + 4 * b) % 2 == a % 2;
  }

  /** A byte cut into a low digit below d and base-8 digits. */
  lemma CutByte(v: byte, d: nat)
    requires d == 2 || d == 4 || d == 8
    ensures v == v % d + d * (v / d % 8 + 8 * (v / d / 8))
  {
    assert v / d == v / d % 8 + 8 * (v / d / 8);
  }

  lemma ByteDigits(v: byte)
    ensures v == v % 8 + 8 * (v / 8 % 8) + 64 * (v / 64 % 8)
    ensures v == v % 2 + 2 * (v / 2 % 8) + 16 * (v / 16 % 8) + 128 * (v / 128 % 8)
    ensures v == v % 4 + 4 * (v / 4 % 8) + 32 * (v / 32 % 8)
    ensures 4 * v % 8 == 4 * (v % 2) && 2 * v % 8 == 2 * (v % 4)
  {
    CutByte(v, 8);
    CutByte(v, 2);
    CutByte(v, 4);
    SmallMods(v / 64, v / 128, v / 32);
    CutByte(v / 2, 8);
    Nested(v);
  }

  lemma SmallMods(a: nat, b: nat, c: nat)
    requires a < 8 && b < 8 && c < 8
    ensures a % 8 == a && b % 8 == b && c % 8 == c
  {
  }

  lemma Nested(v: byte)
    ensures v / 8 / 8 == v / 64 && v / 2 / 8 == v / 16 && v / 2 / 8 / 8 == v / 128 && v / 4 / 8 == v / 32
    ensures 4 * v % 8 == 4 * (v % 2) && 2 * v % 8 == 2 * (v % 4)
  {
    DivTwice(v, 8, 8);
    DivTwice(v, 2, 8);
    DivTwice(v, 16, 8);
    DivTwice(v, 4, 8);
    QuotientUnique(4 * v, v / 2, 4 * (v % 2), 8);
    QuotientUnique(2 * v, v / 4, 2 * (v % 4), 8);
  }

  /** The eight 3-bit digits of three bytes. */
  function GroupDigits(v0: byte, v1: byte, v2: byte): seq<nat> {
    [v0 % 8, v0 / 8 % 8, Xor(v0 / 64 % 8, 4 * v1 % 8), v1 / 2 % 8,
     v1 / 16 % 8, Xor(v1 / 128 % 8, 2 * v2 % 8), v2 / 4 % 8, v2 / 32 % 8]
  }

  lemma EightDigits(v0: byte, v1: byte, v2: byte)
    ensures var g := GroupDigits(v0, v1, v2);
            (forall k :: 0 <= k < 8 ==> 0 <= g[k] <= 7) && Quad(g, 0) + 4096 * Quad(g, 4) == v0 + 256 * v1 + 65536 * v2
  {
    hide Xor;
    ByteDigits(v0);
    ByteDigits(v1);
    ByteDigits(v2);
    XorPair(v0 / 64 % 8, v1 % 2);
    XorBit(v1 / 128 % 8, v2 % 4);
  }

  /** Writes the first n digits of limbs 3 i to 3 i + 2. */
  method WriteGroup(r: array<int8>, i: nat, v0: byte, v1: byte, v2: byte, n: nat)
    requires r.Length == 85 && i <= 10 && n <= 8 && 8 * i + n <= 85
    modifies r
    ensures forall k :: 0 <= k < 85 && !(8 * i <= k < 8 * i + n) ==> r[k] == old(r[k])
    ensures forall k :: 0 <= k < n ==> r[8 * i + k] == GroupDigits(v0, v1, v2)[k]
  {
    hide Xor;
    EightDigits(v0, v1, v2);
    var g := GroupDigits(v0, v1, v2);
    for j := 0 to n
      invariant forall k :: 0 <= k < 85 && !(8 * i <= k < 8 * i + j) ==> r[k] == old(r[k])
      invariant forall k :: 0 <= k < j ==> r[8 * i + k] == g[k]
    {
      r[8 * i + j] := g[j];
    }
  }

  ghost function Quad(r: seq<int>, j: nat): int
    requires j + 4 <= |r|
  {
    r[j] + 8 * r[j + 1] + 64 * r[j + 2] + 512 * r[j + 3]
  }

  lemma GroupValue(r0: seq<int>, r: seq<int>, s: seq<int>, i: nat)
    requires |r0| == |r| == 85 && |s| == 32 && i < 10
    requires Digits(r0, 8, 8 * i) == Val(s, 3 * i) && PowB(8, 8 * i) == Pow256(3 * i)
    requires forall k :: 0 <= k < 8 * i ==> r[k] == r0[k]
    requires Quad(r, 8 * i) + 4096 * Quad(r, 8 * i + 4) == s[3 * i] + 256 * s[3 * i + 1] + 65536 * s[3 * i + 2]
    ensures Digits(r, 8, 8 * i + 8) == Val(s, 3 * i + 3) && PowB(8, 8 * i + 8) == Pow256(3 * i + 3)
  {
    hide *;
    var j := 8 * i;
    DigitsSame(r0, r, 8, j);
    FourDigits(r, j);
    FourDigits(r, j + 4);
    ThreeLimbs(s, 3 * i);
    Gather(PowB(8, j), PowB(8, j + 4), Quad(r, j), Quad(r, j + 4));
  }

  lemma Gather(p: int, p4: int, lo: int, hi: int)
    requires p4 == 4096 * p
    ensures p * lo + p4 * hi == p * (lo + 4096 * hi)
  {
  }

  lemma FourDigits(r: seq<int>, j: nat)
    requires j + 4 <= |r|
    ensures Digits(r, 8, j + 4) == Digits(r, 8, j) + PowB(8, j) * Quad(r, j)
    ensures PowB(8, j + 4) == 4096 * PowB(8, j)
  {
    DigitStep(r, 8, j);
    DigitStep(r, 8, j + 1);
    DigitStep(r, 8, j + 2);
    DigitStep(r, 8, j + 3);
  }

  lemma ThreeLimbs(s: seq<int>, n: nat)
    requires n + 3 <= |s|
    ensures Val(s, n + 3) == Val(s, n) + Pow256(n) * (s[n] + 256 * s[n + 1] + 65536 * s[n + 2])
    ensures Pow256(n + 3) == 16777216 * Pow256(n)
  {
    ValStep(s, n);
    ValStep(s, n + 1);
    ValStep(s, n + 2);
  }

  /** A scalar below L leaves the top three bits of its top limb clear. */
  lemma ScalarTop(s: seq<int>)
    requires IsScalar(s)
    ensures s[31] <= 16
  {
    hide Val, Pow256;
    ValBound(s, 31);
    ValStep(s, 31);
    Pow256Values();
  }

  /** The first part of sc25519_window3: plain base-8 digits. */
  method PlainDigits(r: array<int8>, s: seq<uint32>)
    requires r.Length == 85 && IsScalar(s)
    modifies r
    ensures (forall k :: 0 <= k < 85 ==> 0 <= r[k] <= 7) && r[84] <= 1
    ensures Digits(r[..], 8, 85) == Num(s)
  {
    hide Digits, PowB, Val, Pow256, Num, GroupDigits;
    DigitStep(r[..], 8, 0);
    ValStep(s, 0);
    Pow256Octets();
    for i := 0 to 10
      invariant forall k :: 0 <= k < 8 * i ==> 0 <= r[k] <= 7
      invariant Digits(r[..], 8, 8 * i) == Val(s, 3 * i) && PowB(8, 8 * i) == Pow256(3 * i)
    {
      ghost var r0 := r[..];
      WriteGroup(r, i, s[3 * i], s[3 * i + 1], s[3 * i + 2], 8);
      EightDigits(s[3 * i], s[3 * i + 1], s[3 * i + 2]);
      forall k | 8 * i <= k < 8 * i + 8 ensures 0 <= r[k] <= 7 {
        assert r[k] == r[8 * i + (k - 8 * i)];
      }
      GroupValue(r0, r[..], s, i);
    }
    ghost var r0 := r[..];
    WriteGroup(r, 10, s[30], s[31], 0, 5);
    TopValue(r0, r[..], s);
  }

  lemma TopValue(r0: seq<int>, r: seq<int>, s: seq<uint32>)
    requires |r0| == |r| == 85 && IsScalar(s)
    requires Digits(r0, 8, 80) == Val(s, 30) && PowB(8, 80) == Pow256(30)
    requires forall k :: 0 <= k < 80 ==> r[k] == r0[k]
    requires forall k :: 0 <= k < 5 ==> r[80 + k] == GroupDigits(s[30], s[31], 0)[k]
    ensures (forall k :: 80 <= k < 85 ==> 0 <= r[k] <= 7) && r[84] <= 1
    ensures Digits(r, 8, 85) == Num(s)
  {
    hide Digits, PowB, Val, Pow256, Xor, Num;
    ScalarTop(s);
    EightDigits(s[30], s[31], 0);
    var g := GroupDigits(s[30], s[31], 0);
    XorBit(s[31] / 128 % 8, 0);
    assert r[80] == r[80 + 0] && r[81] == r[80 + 1] && r[82] == r[80 + 2] && r[83] == r[80 + 3] && r[84] == r[80 + 4];
    DigitsSame(r0, r, 8, 80);
    FourDigits(r, 80);
    DigitStep(r, 8, 84);
    TwoLimbs(s);
    Gather(PowB(8, 80), PowB(8, 84), Quad(r, 80), r[84]);
  }

  lemma TwoLimbs(s: seq<int>)
    requires |s| == 32
    ensures Num(s) == Val(s, 30) + Pow256(30) * (s[30] + 256 * s[31])
  {
    hide Pow256;
    Pow256Add(1, 30);
    Pow256Octets();
    assert Val(s, 32) == Val(s, 31) + s[31] * Pow256(31);
  }

  /** The second part: digits from 4 upwards become negative and carry. */
  method MakeSigned(r: array<int8>)
    requires r.Length == 85 && (forall k :: 0 <= k < 85 ==> 0 <= r[k] <= 7) && r[84] <= 1
    modifies r
    ensures forall k :: 0 <= k < 85 ==> -4 <= r[k] <= 3
    ensures Digits(r[..], 8, 85) == old(Digits(r[..], 8, 85))
  {
    hide Digits, PowB;
    var carry: int8 := 0;
    for i := 0 to 84
      invariant 0 <= carry <= 1
      invariant forall k :: 0 <= k < i ==> -4 <= r[k] <= 3
      invariant 0 <= r[i] && r[i] + carry <= 8
      invariant forall k :: i < k < 85 ==> 0 <= r[k] <= 7
      invariant if i < 84 then r[84] <= 1 else r[84] + carry <= 2
      invariant Digits(r[..], 8, 85) + carry * PowB(8, i) == old(Digits(r[..], 8, 85))
    {
      ghost var r0: seq<int>, c0 := r[..], carry;
      r[i] := r[i] + carry;
      r[i + 1] := r[i + 1] + r[i] / 8;
      r[i] := r[i] % 8;
      carry := r[i] / 4;
      r[i] := r[i] - 8 * carry;
      ghost var r1: seq<int> := r[..];
      SignedStep(r0, r1, i, c0, carry);
    }
    ghost var r0: seq<int> := r[..];
    DigitsUpdate(r0, 8, 84, r[84] + carry, 85);
    r[84] := r[84] + carry;
    ghost var r1: seq<int> := r[..];
    assert r1 == r0[84 := r0[84] + carry];
  }

  lemma SignedStep(r0: seq<int>, r1: seq<int>, i: nat, c0: int, c1: int)
    requires |r0| == |r1| == 85 && i < 84
    requires r1 == r0[i := r1[i]][i + 1 := r1[i + 1]]
    requires r1[i] + 8 * (r1[i + 1] - r0[i + 1]) + 8 * c1 == r0[i] + c0
    ensures Digits(r1, 8, 85) + c1 * PowB(8, i + 1) == Digits(r0, 8, 85) + c0 * PowB(8, i)
  {
    hide Digits;
    DigitsUpdate(r0, 8, i, r1[i], 85);
    DigitsUpdate(r0[i := r1[i]], 8, i + 1, r1[i + 1], 85);
    var p, d, e := PowB(8, i), r1[i] - r0[i], r1[i + 1] - r0[i + 1];
    assert PowB(8, i + 1) == 8 * p;
    assert (d + 8 * e + 8 * c1) * p == d * p + e * (8 * p) + c1 * (8 * p);
  }

  /** sc25519_window3: 85 digits from -4 to 3 that denote s in base 8. */
  method Window3(r: array<int8>, s: seq<uint32>)
    requires r.Length == 85 && IsScalar(s)
    modifies r
    ensures forall k :: 0 <= k < 85 ==> -4 <= r[k] <= 3
    ensures Digits(r[..], 8, 85) == Num(s)
  {
    PlainDigits(r, s);
    MakeSigned(r);
  }

  // ----- sc25519_2interleave2

  /** The low base-4 digits of the interleaved digits, and the high ones. */
  ghost function Lows(r: seq<int>): seq<int> {
    seq(|r|, k requires 0 <= k < |r| => r[k] % 4)
  }

  ghost function Highs(r: seq<int>): seq<int> {
    seq(|r|, k requires 0 <= k < |r| => r[k] / 4)
  }

  /** The j-th base-4 digit of a byte. */
  function Crumb(v: nat, j: nat): nat
    requires j < 4
  {
    match j case 0 => v % 4 case 1 => v / 4 % 4 case 2 => v / 16 % 4 case _ => v / 64 % 4
  }

  /** One interleaved digit as the code forms it. */
  function Interleaved(v1: nat, v2: nat, j: nat): nat
    requires j < 4
  {
    Xor(Crumb(v1, j), 4 * Crumb(v2, j))
  }

  lemma InterleavedDigits(v1: nat, v2: nat, j: nat)
    requires j < 4
    ensures var b := Interleaved(v1, v2, j); b < 16 && b % 4 == Crumb(v1, j) && b / 4 == Crumb(v2, j)
  {
    hide Xor;
    CrumbRange(v1, j);
    CrumbRange(v2, j);
    hide Crumb;
    XorPair(Crumb(v1, j), Crumb(v2, j));
  }

  lemma CrumbRange(v: nat, j: nat)
    requires j < 4
    ensures Crumb(v, j) < 4
  {
  }

  method Interleave2(r: array<byte>, s1: seq<uint32>, s2: seq<uint32>)
    requires r.Length == 127 && IsScalar(s1) && IsScalar(s2)
    modifies r
    ensures forall k :: 0 <= k < 127 ==> r[k] < 16
    ensures Digits(Lows(r[..]), 4, 127) == Num(s1)
    ensures Digits(Highs(r[..]), 4, 127) == Num(s2)
  {
    hide Digits, Num, Interleaved, Crumb;
    for k := 0 to 127
      invariant forall i :: 0 <= i < k ==> r[i] < 16
      invariant forall i :: 0 <= i < k ==> r[i] % 4 == Crumb(s1[i / 4], i % 4)
      invariant forall i :: 0 <= i < k ==> r[i] / 4 == Crumb(s2[i / 4], i % 4)
    {
      InterleavedDigits(s1[k / 4], s2[k / 4], k % 4);
      r[k] := Interleaved(s1[k / 4], s2[k / 4], k % 4);
    }
    CrumbsValue(Lows(r[..]), s1);
    CrumbsValue(Highs(r[..]), s2);
  }

  /** 127 base-4 digits hold every scalar. */
  lemma CrumbsValue(d: seq<int>, s: seq<uint32>)
    requires |d| == 127 && IsScalar(s) && forall k :: 0 <= k < 127 ==> d[k] == Crumb(s[k / 4], k % 4)
    ensures Digits(d, 4, 127) == Num(s)
  {
    hide Digits, PowB, Val, Pow256, Num, Crumb;
    CrumbsPrefix(d, s, 31);
    TopCrumbs(d, s);
  }

  lemma {:induction false} CrumbsPrefix(d: seq<int>, s: seq<uint32>, n: nat)
    requires |d| == 127 && |s| == 32 && Normal(s, 32) && n <= 31
    requires forall k :: 0 <= k < 127 ==> d[k] == Crumb(s[k / 4], k % 4)
    ensures Digits(d, 4, 4 * n) == Val(s, n) && PowB(4, 4 * n) == Pow256(n)
  {
    hide Digits, PowB, Val, Pow256, Crumb;
    DigitStep(d, 4, 0);
    ValStep(s, 0);
    Pow256Octets();
    if n == 0 {
    } else {
      CrumbsPrefix(d, s, n - 1);
      var j, v := 4 * (n - 1), s[n - 1];
      FourCrumbs(d, j);
      assert d[j] == Crumb(v, 0) && d[j + 1] == Crumb(v, 1) && d[j + 2] == Crumb(v, 2) && d[j + 3] == Crumb(v, 3);
      ByteCrumbs(v);
      ValStep(s, n - 1);
      Pow256Next(n - 1);
    }
  }

  lemma Pow256Next(n: nat)
    ensures Pow256(n + 1) == 256 * Pow256(n)
  {
  }

  lemma FourCrumbs(d: seq<int>, j: nat)
    requires j + 4 <= |d|
    ensures Digits(d, 4, j + 4) == Digits(d, 4, j) + (d[j] + 4 * d[j + 1] + 16 * d[j + 2] + 64 * d[j + 3]) * PowB(4, j)
    ensures PowB(4, j + 4) == 256 * PowB(4, j)
  {
    DigitStep(d, 4, j);
    DigitStep(d, 4, j + 1);
    DigitStep(d, 4, j + 2);
    DigitStep(d, 4, j + 3);
  }

  lemma ByteCrumbs(v: nat)
    requires v < 256
    ensures v == Crumb(v, 0) + 4 * Crumb(v, 1) + 16 * Crumb(v, 2) + 64 * Crumb(v, 3)
  {
    assert v / 16 == v / 4 / 4 && v / 64 == v / 16 / 4;
  }

  lemma TopCrumbs(d: seq<int>, s: seq<uint32>)
    requires |d| == 127 && IsScalar(s) && forall k :: 0 <= k < 127 ==> d[k] == Crumb(s[k / 4], k % 4)
    requires Digits(d, 4, 124) == Val(s, 31) && PowB(4, 124) == Pow256(31)
    ensures Digits(d, 4, 127) == Num(s)
  {
    hide Digits, PowB, Val, Pow256;
    ScalarTop(s);
    ByteCrumbs(s[31]);
    assert d[124] == Crumb(s[31], 0) && d[125] == Crumb(s[31], 1) && d[126] == Crumb(s[31], 2);
    DigitStep(d, 4, 124);
    DigitStep(d, 4, 125);
    DigitStep(d, 4, 126);
    ValStep(s, 31);
    var p := PowB(4, 124);
    assert s[31] * p == d[124] * p + d[125] * (4 * p) + d[126] * (16 * p);
  }
}
