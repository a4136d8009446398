/**
 Schoolbook products t[i + j] += x[i] * y[j], possibly restricted to a window of
 columns, as the Ed25519 field and scalar arithmetic accumulate them.
 */
module Products {
  import opened Common
  import opened Limbs

  ghost function Sum(s: seq<int>, n: nat): int
    requires n <= |s|
  {
    if n == 0 then 0 else Sum(s, n - 1) + s[n - 1]
  }

  /** The part of y[..n] in positions lo to hi - 1. */
  ghost function Part(y: seq<int>, lo: int, hi: int, n: nat): int
    requires n <= |y|
  {
    if n == 0 then 0
    else Part(y, lo, hi, n - 1) + if lo <= n - 1 < hi then y[n - 1] * Pow256(n - 1) else 0
  }

  /** The columns lo to hi - 1 of x[..n] * y. */
  ghost function Product(x: seq<int>, y: seq<int>, lo: int, hi: int, n: nat): int
    requires n <= |x|
  {
    if n == 0 then 0
    else Product(x, y, lo, hi, n - 1) + x[n - 1] * Pow256(n - 1) * Part(y, lo - (n - 1), hi - (n - 1), |y|)
  }

  lemma {:induction false} PartSplit(y: seq<int>, lo: int, mid: int, hi: int, n: nat)
    requires n <= |y| && lo <= mid <= hi
    ensures Part(y, lo, hi, n) == Part(y, lo, mid, n) + Part(y, mid, hi, n)
  {
    if n == 0 {
    } else {
      PartSplit(y, lo, mid, hi, n - 1);
    }
  }

  lemma {:induction false} PartAll(y: seq<int>, lo: int, hi: int, n: nat)
    requires n <= |y| && lo <= 0 && n <= hi
    ensures Part(y, lo, hi, n) == Val(y, n)
  {
    if n == 0 {
    } else {
      PartAll(y, lo, hi, n - 1);
    }
  }

  /** The product splits by columns. */
  lemma {:induction false} ProductSplit(x: seq<int>, y: seq<int>, lo: int, mid: int, hi: int, n: nat)
    requires n <= |x| && lo <= mid <= hi
    ensures Product(x, y, lo, hi, n) == Product(x, y, lo, mid, n) + Product(x, y, mid, hi, n)
  {
    if n == 0 {
    } else {
      var i := n - 1;
      hide Part, Pow256;
      ProductSplit(x, y, lo, mid, hi, i);
      PartSplit(y, lo - i, mid - i, hi - i, |y|);
      var w, a, b := x[i] * Pow256(i), Part(y, lo - i, mid - i, |y|), Part(y, mid - i, hi - i, |y|);
      assert w * (a + b) == w * a + w * b;
    }
  }

  /** With no column left out it is the product of the two numbers. */
  lemma {:induction false} ProductAll(x: seq<int>, y: seq<int>, hi: int, n: nat)
    requires n <= |x| && n + |y| <= hi + 1
    ensures Product(x, y, 0, hi, n) == Val(x, n) * Num(y)
  {
    if n == 0 {
    } else {
      ProductAll(x, y, hi, n - 1);
      hide Part, Pow256;
      PartAll(y, -(n - 1), hi - (n - 1), |y|);
      var a, b, c := Val(x, n - 1), x[n - 1] * Pow256(n - 1), Num(y);
      assert (a + b) * c == a * c + b * c;
    }
  }

  lemma {:induction false} SumBound(s: seq<int>, n: nat, b: int)
    requires n <= |s| && forall k :: 0 <= k < n ==> 0 <= s[k] <= b
    ensures 0 <= Sum(s, n) <= n * b
  {
    if n == 0 {
    } else {
      SumBound(s, n - 1, b);
      assert (n - 1) * b + b == n * b;
    }
  }

  lemma {:induction false} SumGrows(s: seq<int>, n: nat)
    requires n <= |s| && forall k :: 0 <= k < |s| ==> 0 <= s[k]
    ensures 0 <= Sum(s, n) <= Sum(s, |s|)
    decreases |s| - n
  {
    if n < |s| {
      SumGrows(s, n + 1);
    }
    SumNonNegative(s, n);
  }

  lemma {:induction false} SumNonNegative(s: seq<int>, n: nat)
    requires n <= |s| && forall k :: 0 <= k < |s| ==> 0 <= s[k]
    ensures 0 <= Sum(s, n)
  {
    if n == 0 {
    } else {
      SumNonNegative(s, n - 1);
    }
  }

  /** The products x[i] * y[k - i] of column k, for i below n. */
  ghost function ColumnSum(x: seq<int>, y: seq<int>, k: nat, n: nat): int
    requires n <= |x|
  {
    if n == 0 then 0 else ColumnSum(x, y, k, n - 1) + RowTerm(x, y, k, n - 1)
  }

  ghost function RowTerm(x: seq<int>, y: seq<int>, k: nat, i: nat): int
    requires i < |x|
  {
    if i <= k < i + |y| then x[i] * y[k - i] else 0
  }

  /** The nested accumulation loops.  No column can exceed bound * Sum(x), which
      must fit a word. */
  method Accumulate(t: array<uint32>, x: seq<uint32>, y: seq<uint32>, lo: nat, hi: nat, ghost bound: nat)
    requires lo <= hi <= t.Length && forall k :: 0 <= k < t.Length ==> t[k] == 0
    requires forall k :: 0 <= k < |y| ==> y[k] <= bound
    requires bound * Sum(x, |x|) < 0x1_0000_0000
    modifies t
    ensures Num(t[..]) == Product(x, y, lo, hi, |x|)
    ensures forall k :: lo <= k < hi ==> t[k] == ColumnSum(x, y, k, |x|)
    ensures forall k :: 0 <= k < t.Length ==> t[k] <= bound * Sum(x, |x|)
    ensures forall k :: 0 <= k < t.Length && !(lo <= k < hi) ==> t[k] == 0
  {
    ghost var zero := t[..];
    ZeroValue(zero, |zero|);
    for i := 0 to |x|
      invariant Num(t[..]) == Product(x, y, lo, hi, i)
      invariant forall k :: lo <= k < hi ==> t[k] == ColumnSum(x, y, k, i)
      invariant forall k :: 0 <= k < t.Length ==> t[k] <= bound * Sum(x, i)
      invariant forall k :: 0 <= k < t.Length && !(lo <= k < hi) ==> t[k] == 0
    {
      AccumulateRow(t, x, y, i, lo, hi, bound);
    }
  }

  /** The inner loop: row i. */
  method AccumulateRow(t: array<uint32>, x: seq<uint32>, y: seq<uint32>, i: nat, lo: nat, hi: nat, ghost bound: nat)
    requires i < |x| && lo <= hi <= t.Length
    requires forall k :: 0 <= k < |y| ==> y[k] <= bound
    requires bound * Sum(x, |x|) < 0x1_0000_0000
    requires Num(t[..]) == Product(x, y, lo, hi, i)
    requires forall k :: 0 <= k < t.Length ==> t[k] <= bound * Sum(x, i)
    requires forall k :: 0 <= k < t.Length && !(lo <= k < hi) ==> t[k] == 0
    modifies t
    ensures Num(t[..]) == Product(x, y, lo, hi, i + 1)
    ensures forall k :: lo <= k < hi ==> t[k] == old(t[k]) + RowTerm(x, y, k, i)
    ensures forall k :: 0 <= k < t.Length ==> t[k] <= bound * Sum(x, i + 1)
    ensures forall k :: 0 <= k < t.Length && !(lo <= k < hi) ==> t[k] == 0
  {
    NoTerm(x, y, i);
    ProductStep(x, y, lo, hi, i);
    hide Val, Pow256, RowTerm, Sum, Product, Part;
    PartStep(y, lo - i, hi - i, 0);
    ghost var start: seq<int> := t[..];
    ghost var before := bound * Sum(x, i);
    ghost var w, total := x[i] * Pow256(i), Product(x, y, lo, hi, i);
    RowBound(x, i, bound);
    for j := 0 to |y|
      invariant Num(t[..]) == total + w * Part(y, lo - i, hi - i, j)
      invariant forall k :: lo <= k < hi ==> t[k] == start[k] + if i <= k < i + j then RowTerm(x, y, k, i) else 0
      invariant forall k :: 0 <= k < t.Length ==> t[k] <= before + if i <= k < i + j then bound * x[i] else 0
      invariant forall k :: 0 <= k < t.Length && !(lo <= k < hi) ==> t[k] == 0
    {
      PartStep(y, lo - i, hi - i, j);
      if lo <= i + j < hi {
        TermBound(x[i], y[j], bound);
        TermAt(x, y, i, j);
        RowStep(x, y, i, j, Part(y, lo - i, hi - i, j));
        AddTerm(t, i + j, x[i] * y[j]);
      }
    }
  }

  method AddTerm(t: array<uint32>, k: nat, v: nat)
    requires k < t.Length && t[k] + v < 0x1_0000_0000
    modifies t
    ensures t[k] == old(t[k]) + v && forall m :: 0 <= m < t.Length && m != k ==> t[m] == old(t[m])
    ensures Num(t[..]) == old(Num(t[..])) + v * Pow256(k)
  {
    hide Val, Pow256;
    ghost var t0: seq<int> := t[..];
    t[k] := t[k] + v;
    ValUpdate(t0, k, t0[k] + v, |t0|);
    ghost var t1: seq<int> := t[..];
    assert t1 == t0[k := t0[k] + v];
  }

  lemma RowStep(x: seq<int>, y: seq<int>, i: nat, j: nat, part: int)
    requires i < |x| && j < |y|
    ensures var w := x[i] * Pow256(i); w * (part + y[j] * Pow256(j)) == w * part + x[i] * y[j] * Pow256(i + j)
  {
    hide Pow256;
    Term(x[i], i, y[j], j);
    var w, v := x[i] * Pow256(i), y[j] * Pow256(j);
    assert w * (part + v) == w * part + w * v;
  }

  lemma PartStep(y: seq<int>, lo: int, hi: int, n: nat)
    requires n <= |y|
    ensures Part(y, lo, hi, 0) == 0
    ensures n < |y| ==> Part(y, lo, hi, n + 1) == Part(y, lo, hi, n) + if lo <= n < hi then y[n] * Pow256(n) else 0
  {
  }

  lemma NoTerm(x: seq<int>, y: seq<int>, i: nat)
    requires i < |x|
    ensures forall k: nat :: !(i <= k < i + |y|) ==> RowTerm(x, y, k, i) == 0
  {
  }

  lemma TermAt(x: seq<int>, y: seq<int>, i: nat, j: nat)
    requires i < |x| && j < |y|
    ensures RowTerm(x, y, i + j, i) == x[i] * y[j]
  {
  }

  lemma RowBound(x: seq<int>, i: nat, bound: nat)
    requires i < |x| && forall k :: 0 <= k < |x| ==> 0 <= x[k]
    ensures bound * Sum(x, i) + bound * x[i] == bound * Sum(x, i + 1) <= bound * Sum(x, |x|)
    ensures 0 <= bound * x[i] && 0 <= bound * Sum(x, i)
  {
    SumGrows(x, i);
    SumGrows(x, i + 1);
    MulLe(Sum(x, i + 1), Sum(x, |x|), bound);
  }

  lemma TermBound(a: int, b: int, bound: int)
    requires 0 <= a && 0 <= b <= bound
    ensures 0 <= a * b <= bound * a
  {
    MulLe(b, bound, a);
  }

  lemma Term(a: int, i: nat, b: int, j: nat)
    ensures a * Pow256(i) * (b * Pow256(j)) == a * b * Pow256(i + j)
  {
    hide Pow256;
    Pow256Add(i, j);
    var p, q := Pow256(i), Pow256(j);
    assert a * p * (b * q) == a * b * (p * q);
  }

  // ----- windows of columns

  lemma {:induction false} PartPrefix(y: seq<int>, lo: int, hi: int, n: nat)
    requires n <= |y| && lo <= 0 && hi <= n
    ensures Part(y, lo, hi, n) == if hi <= 0 then 0 else Val(y, hi)
  {
    if n == 0 {
    } else {
      if hi == n {
        PartAll(y, lo, hi, n);
      } else {
        PartPrefix(y, lo, hi, n - 1);
      }
    }
  }

  lemma ProductStep(x: seq<int>, y: seq<int>, lo: int, hi: int, n: nat)
    requires n < |x|
    ensures Product(x, y, lo, hi, 0) == 0
    ensures Product(x, y, lo, hi, n + 1) == Product(x, y, lo, hi, n) + x[n] * Pow256(n) * Part(y, lo - n, hi - n, |y|)
  {
  }

  /** The columns below c of two byte strings amount to at most c * 255 * 256^c. */
  lemma {:induction false} LowColumns(x: seq<int>, y: seq<int>, c: nat, n: nat)
    requires n <= |x| && Normal(x, n) && Normal(y, |y|) && c <= |y|
    ensures 0 <= Product(x, y, 0, c, n) <= (if n <= c then n else c) * (255 * Pow256(c))
  {
    if n == 0 {
    } else {
      LowColumns(x, y, c, n - 1);
      LowRow(x, y, c, n - 1);
      hide *;
      var a, b := n - 1, 255 * Pow256(c);
      assert a * b + b == n * b;
    }
  }

  lemma LowRow(x: seq<int>, y: seq<int>, c: nat, i: nat)
    requires i < |x| && 0 <= x[i] <= 255 && Normal(y, |y|) && c <= |y|
    ensures Product(x, y, 0, c, 0) == 0
    ensures 0 <= Product(x, y, 0, c, i + 1) - Product(x, y, 0, c, i) <= if i < c then 255 * Pow256(c) else 0
  {
    hide Product, Part, Val, Pow256;
    ProductStep(x, y, 0, c, i);
    PartPrefix(y, 0 - i, c - i, |y|);
    if i < c {
      ValBound(y, c - i);
      Pow256Add(i, c - i);
      RowSize(x[i], Pow256(i), Val(y, c - i), Pow256(c - i));
    }
  }

  lemma RowSize(a: int, p: int, v: int, q: int)
    requires 0 <= a <= 255 && 0 < p && 0 <= v < q
    ensures 0 <= a * p * v <= 255 * (p * q)
  {
    MulLe(a, 255, p);
    MulLe(v, q, a * p);
    MulLe(a * p, 255 * p, q);
  }

  /** The columns from c upwards are a multiple of 256^c. */
  lemma {:induction false} HighColumns(x: seq<int>, y: seq<int>, c: nat, hi: int, n: nat) returns (k: int)
    requires n <= |x|
    ensures Product(x, y, c, hi, n) == k * Pow256(c)
  {
    if n == 0 {
      k := 0;
    } else {
      hide *;
      var i := n - 1;
      var k0 := HighColumns(x, y, c, hi, i);
      var k1 := HighPart(y, i, c, hi, |y|);
      k := k0 + x[i] * k1;
      ProductStep(x, y, c, hi, i);
      Regroup(k0, x[i], Pow256(i), Part(y, c - i, hi - i, |y|), k1, Pow256(c));
    }
  }

  lemma Regroup(k0: int, a: int, p: int, v: int, k1: int, q: int)
    requires p * v == k1 * q
    ensures k0 * q + a * p * v == (k0 + a * k1) * q
  {
    assert a * p * v == a * (p * v);
    assert a * (k1 * q) == a * k1 * q;
  }

  lemma {:induction false} HighPart(y: seq<int>, i: nat, c: nat, hi: int, n: nat) returns (k: int)
    requires n <= |y|
    ensures Pow256(i) * Part(y, c - i, hi - i, n) == k * Pow256(c)
  {
    hide Pow256;
    if n == 0 {
      k := 0;
    } else {
      k := HighPart(y, i, c, hi, n - 1);
      if c - i <= n - 1 < hi - i {
        var d := i + (n - 1) - c;
        Pow256Add(i, n - 1);
        Pow256Add(c, d);
        hide Part;
        RegroupHigh(Part(y, c - i, hi - i, n - 1), y[n - 1], Pow256(i), Pow256(n - 1), k, Pow256(c), Pow256(d));
        k := k + y[n - 1] * Pow256(d);
      }
    }
  }

  lemma RegroupHigh(a: int, v: int, p: int, q: int, k: int, r: int, w: int)
    requires p * a == k * r && p * q == r * w
    ensures p * (a + v * q) == (k + v * w) * r
  {
    assert p * (v * q) == v * (p * q);
    assert v * w * r == v * (r * w);
  }

  // ----- carrying the accumulated columns

  /** t[i + 1] += t[i] >> 8; t[i] &= 255 for all limbs but the last. */
  method CarryLimbs(t: array<uint32>)
    requires t.Length > 0 && forall k :: 0 <= k < t.Length ==> t[k] <= 0xf000_0000
    modifies t
    ensures Normal(t[..], t.Length - 1)
    ensures Num(t[..]) == old(Num(t[..]))
  {
    hide Val, Pow256;
    for i := 0 to t.Length - 1
      invariant Normal(t[..], i)
      invariant forall k :: i <= k < t.Length ==> t[k] <= if k == i then 0xf100_0000 else 0xf000_0000
      invariant Num(t[..]) == old(Num(t[..]))
    {
      ghost var t0: seq<int> := t[..];
      var carry := t[i] / 256;
      t[i + 1] := t[i + 1] + carry;
      t[i] := t[i] % 256;
      ghost var t1: seq<int> := t[..];
      MoveCarry(t0, t1, i);
    }
  }

  lemma MoveCarry(s: seq<int>, t: seq<int>, i: nat)
    requires i + 1 < |s| && t == s[i := s[i] % 256][i + 1 := s[i + 1] + s[i] / 256]
    ensures Num(t) == Num(s)
  {
    hide Val;
    var u := s[i := s[i] % 256];
    ValUpdate(s, i, s[i] % 256, |s|);
    ValUpdate(u, i + 1, s[i + 1] + s[i] / 256, |s|);
    var p, c := Pow256(i), s[i] / 256;
    assert Pow256(i + 1) == 256 * p;
    assert (s[i] % 256 - s[i]) * p == -(256 * c) * p;
    assert c * (256 * p) == 256 * c * p;
  }
}
