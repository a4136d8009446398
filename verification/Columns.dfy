/**
 Multiplication modulo 2^256 - 38 by columns, the way `mult` and `square` of the
 X25519 engine sum it, and why the columns denote the product modulo P.
 */
module Columns {
  import opened Limbs
  import Field

  /** The limb of b that meets a[j] in column i: past the top it wraps around
      with weight 38, because 256^32 = 38 (mod P). */
  ghost function Wrapped(b: seq<int>, i: nat, j: nat): int
    requires |b| == 32 && i < 32 && j < 32
  {
    if j <= i then b[i - j] else 38 * b[i + 32 - j]
  }

  /** The first n products of column i. */
  ghost function Col(a: seq<int>, b: seq<int>, i: nat, n: nat): int
    requires |a| == |b| == 32 && i < 32 && n <= 32
  {
    if n == 0 then 0 else Col(a, b, i, n - 1) + a[n - 1] * Wrapped(b, i, n - 1)
  }

  /** All columns, each summed up to its n-th product. */
  ghost function Cols(a: seq<int>, b: seq<int>, n: nat): (c: seq<int>)
    requires |a| == |b| == 32 && n <= 32
    ensures |c| == 32
  {
    seq(32, i requires 0 <= i < 32 => Col(a, b, i, n))
  }

  /** b shifted up by j limbs with wrap-around. */
  ghost function Rotated(b: seq<int>, j: nat): (r: seq<int>)
    requires |b| == 32 && j < 32
    ensures |r| == 32
  {
    seq(32, i requires 0 <= i < 32 => Wrapped(b, i, j))
  }

  lemma {:induction false} ShiftValue(s: seq<int>, t: seq<int>, n: nat)
    requires |s| == |t| && n < |t|
    requires forall k :: 0 < k <= n ==> t[k] == s[k - 1]
    ensures Val(t, n + 1) == t[0] + 256 * Val(s, n)
  {
    if n == 0 {
    } else {
      ShiftValue(s, t, n - 1);
      assert s[n - 1] * Pow256(n) == 256 * (s[n - 1] * Pow256(n - 1));
    }
  }

  /** One more rotation multiplies by 256 modulo P. */
  lemma RotateOnce(s: seq<int>, t: seq<int>)
    requires |s| == |t| == 32 && t[0] == 38 * s[31]
    requires forall k :: 0 < k < 32 ==> t[k] == s[k - 1]
    ensures Num(t) == 256 * Num(s) - 2 * s[31] * Field.P
  {
    hide Val, Pow256;
    ShiftValue(s, t, 31);
    ValStep(s, 31);
    Pow256Values();
  }

  lemma {:induction false} RotatedValue(b: seq<int>, j: nat) returns (k: int)
    requires |b| == 32 && j < 32
    ensures Num(Rotated(b, j)) == Pow256(j) * Num(b) + k * Field.P
  {
    hide Val;
    if j == 0 {
      assert Rotated(b, 0) == b;
      k := 0;
    } else {
      var k0 := RotatedValue(b, j - 1);
      var s := Rotated(b, j - 1);
      RotateOnce(s, Rotated(b, j));
      k := 256 * k0 - 2 * s[31];
      assert 256 * (Pow256(j - 1) * Num(b)) == Pow256(j) * Num(b);
    }
  }

  /** The columns denote the product of a[..n] and b modulo P. */
  lemma {:induction false} ColsValue(a: seq<int>, b: seq<int>, n: nat) returns (k: int)
    requires |a| == |b| == 32 && n <= 32
    ensures Num(Cols(a, b, n)) == Val(a, n) * Num(b) + k * Field.P
  {
    if n == 0 {
      ZeroValue(Cols(a, b, 0), 32);
      k := 0;
    } else {
      var k0 := ColsValue(a, b, n - 1);
      var kr := RotatedValue(b, n - 1);
      k := k0 + a[n - 1] * kr;
      ColsStep(a, b, n - 1, k0, kr);
    }
  }

  lemma ColsStep(a: seq<int>, b: seq<int>, n: nat, k0: int, kr: int)
    requires |a| == |b| == 32 && n < 32
    requires Num(Cols(a, b, n)) == Val(a, n) * Num(b) + k0 * Field.P
    requires Num(Rotated(b, n)) == Pow256(n) * Num(b) + kr * Field.P
    ensures Num(Cols(a, b, n + 1)) == Val(a, n + 1) * Num(b) + (k0 + a[n] * kr) * Field.P
  {
    hide Val, Pow256;
    ValLinear(Cols(a, b, n + 1), Cols(a, b, n), Rotated(b, n), a[n], 32);
    ValStep(a, n);
    var m, w := Num(b), Pow256(n);
    assert (Val(a, n) + a[n] * w) * m == Val(a, n) * m + a[n] * (w * m);
    assert a[n] * (w * m + kr * Field.P) == a[n] * (w * m) + a[n] * kr * Field.P;
  }

  /** The columns of a product denote it modulo P. */
  lemma ColsProduct(a: seq<int>, b: seq<int>)
    requires |a| == |b| == 32
    ensures Num(Cols(a, b, 32)) % Field.P == Field.Mul(Num(a) % Field.P, Num(b) % Field.P)
  {
    hide Val;
    var k := ColsValue(a, b, 32);
    Field.ModEq(Num(Cols(a, b, 32)), Num(a) * Num(b), k);
    Field.ModMul(Num(a), Num(b));
  }

  // ----- squaring: each unordered pair once

  /** The sum of a[j] * a[c - j] for lo <= j < hi. */
  ghost function Conv(a: seq<int>, c: nat, lo: nat, hi: nat): int
    requires lo <= hi <= |a| && (lo < hi ==> hi <= c + 1 && c - lo < |a|)
    decreases hi - lo
  {
    if lo == hi then 0 else Conv(a, c, lo, hi - 1) + a[hi - 1] * a[c - (hi - 1)]
  }

  lemma {:induction false} ConvFront(a: seq<int>, c: nat, lo: nat, hi: nat)
    requires lo < hi <= |a| && hi <= c + 1 && c - lo < |a|
    ensures Conv(a, c, lo, hi) == a[lo] * a[c - lo] + Conv(a, c, lo + 1, hi)
    decreases hi - lo
  {
    if lo + 1 < hi {
      ConvFront(a, c, lo, hi - 1);
    }
  }

  /** Both ends of a range symmetric around c / 2 contribute the same product. */
  lemma ConvEnds(a: seq<int>, c: nat, lo: nat)
    requires lo < c - lo < |a|
    ensures Conv(a, c, lo, c + 1 - lo) == 2 * (a[lo] * a[c - lo]) + Conv(a, c, lo + 1, c - lo)
  {
    ConvFront(a, c, lo, c + 1 - lo);
  }

  lemma {:induction false} ColLow(a: seq<int>, i: nat, n: nat)
    requires |a| == 32 && i < 32 && n <= i + 1
    ensures Col(a, a, i, n) == Conv(a, i, 0, n)
  {
    if n == 0 {
    } else {
      ColLow(a, i, n - 1);
    }
  }

  /** A column of a * a, split where the wrap-around begins. */
  lemma {:induction false} ColSplit(a: seq<int>, i: nat, n: nat)
    requires |a| == 32 && i < n <= 32
    ensures Col(a, a, i, n) == Conv(a, i, 0, i + 1) + 38 * Conv(a, i + 32, i + 1, n)
  {
    if n == i + 1 {
      ColLow(a, i, n);
    } else {
      ColSplit(a, i, n - 1);
      assert a[n - 1] * (38 * a[i + 32 - (n - 1)]) == 38 * (a[n - 1] * a[i + 32 - (n - 1)]);
    }
  }
}
