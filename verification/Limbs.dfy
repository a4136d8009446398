/**
 Little-endian numbers held as byte-sized limbs in 32-bit words, and the
 carry arguments that every limb loop relies on.
 */
module Limbs {
  import opened Common


  /** 256^n */
  function Pow256(n: nat): (r: int)
    ensures r > 0
  {
    if n == 0 then 1 else 256 * Pow256(n - 1)
  }

  /** The number denoted by the first n limbs. */
  ghost function Val(s: seq<int>, n: nat): int
    requires n <= |s|
  {
    if n == 0 then 0 else Val(s, n - 1) + s[n - 1] * Pow256(n - 1)
  }

  /** The number denoted by all limbs. */
  ghost function Num(s: seq<int>): int {
    Val(s, |s|)
  }

  /** The first n limbs are bytes. */
  ghost predicate Normal(s: seq<int>, n: nat)
    requires n <= |s|
  {
    forall k :: 0 <= k < n ==> 0 <= s[k] <= 255
  }

  lemma Pow256Values()
    ensures Pow256(1) == 0x100
    ensures Pow256(31) == 0x1_00000000_00000000_00000000_00000000_00000000_00000000_00000000_000000
    ensures Pow256(32) == 0x1_00000000_00000000_00000000_00000000_00000000_00000000_00000000_00000000
    ensures Pow256(33) == 256 * Pow256(32)
  {
    Pow256Octets();
    hide Pow256;
    Pow256Add(1, 31);
    Pow256Add(1, 32);
  }

  lemma Pow256Octets()
    ensures Pow256(0) == 1 && Pow256(1) == 0x100
    ensures Pow256(8) == 0x1_00000000_00000000
    ensures Pow256(16) == 0x1_00000000_00000000_00000000_00000000
    ensures Pow256(24) == 0x1_00000000_00000000_00000000_00000000_00000000_00000000
    ensures Pow256(32) == 0x1_00000000_00000000_00000000_00000000_00000000_00000000_00000000_00000000
  {
    assert Pow256(4) == 0x1_0000_0000;
    Pow256Add(4, 4);
    Pow256Add(8, 8);
    Pow256Add(8, 16);
    Pow256Add(16, 16);
  }

  /** Eight limbs at a time, for evaluating constants. */
  lemma ValOctet(s: seq<int>, n: nat)
    requires n + 8 <= |s|
    ensures Val(s, 0) == 0
    ensures Val(s, n + 8) == Val(s, n) +
            Pow256(n) * (s[n] + 0x100 * s[n + 1] + 0x10000 * s[n + 2] + 0x1000000 * s[n + 3]
              + 0x1_00000000 * (s[n + 4] + 0x100 * s[n + 5] + 0x10000 * s[n + 6] + 0x1000000 * s[n + 7]))
  {
    ValQuad(s, n);
    ValQuad(s, n + 4);
    hide Val, Pow256;
    Pow256Add(4, n);
    Pow256Four();
    var p := Pow256(n);
    var a := s[n] + 0x100 * s[n + 1] + 0x10000 * s[n + 2] + 0x1000000 * s[n + 3];
    var b := s[n + 4] + 0x100 * s[n + 5] + 0x10000 * s[n + 6] + 0x1000000 * s[n + 7];
    assert p * (a + 0x1_00000000 * b) == p * a + 0x1_00000000 * p * b;
  }

  lemma {:induction false} ZeroValue(s: seq<int>, n: nat)
    requires n <= |s| && forall k :: 0 <= k < n ==> s[k] == 0
    ensures Val(s, n) == 0
  {
    if n == 0 {
    } else {
      ZeroValue(s, n - 1);
    }
  }

  lemma Pow256Two()
    ensures Pow256(2) == 65536
  {
  }

  lemma Pow256Four()
    ensures Pow256(4) == 0x1_00000000
  {
  }

  lemma ValQuad(s: seq<int>, n: nat)
    requires n + 4 <= |s|
    ensures Val(s, n + 4) == Val(s, n) + Pow256(n) * (s[n] + 0x100 * s[n + 1] + 0x10000 * s[n + 2] + 0x1000000 * s[n + 3])
  {
    hide Val;
    ValStep(s, n);
    ValStep(s, n + 1);
    ValStep(s, n + 2);
    ValStep(s, n + 3);
    var p := Pow256(n);
    assert Pow256(n + 1) == 256 * p && Pow256(n + 2) == 65536 * p && Pow256(n + 3) == 16777216 * p;
  }

  lemma ValStep(s: seq<int>, n: nat)
    requires n < |s|
    ensures Val(s, 0) == 0
    ensures Val(s, n + 1) == Val(s, n) + s[n] * Pow256(n)
  {
  }

  lemma {:induction false} Pow256Add(m: nat, n: nat)
    ensures Pow256(m + n) == Pow256(m) * Pow256(n)
  {
    if m == 0 {
    } else {
      Pow256Add(m - 1, n);
    }
  }

  /** Only the first n limbs matter. */
  lemma {:induction false} ValSame(s: seq<int>, t: seq<int>, n: nat)
    requires n <= |s| && n <= |t| && forall k :: 0 <= k < n ==> s[k] == t[k]
    ensures Val(s, n) == Val(t, n)
  {
    if n == 0 {
    } else {
      ValSame(s, t, n - 1);
    }
  }

  /** Normal limbs denote a number below 256^n. */
  lemma {:induction false} ValBound(s: seq<int>, n: nat)
    requires n <= |s| && Normal(s, n)
    ensures 0 <= Val(s, n) < Pow256(n)
  {
    if n == 0 {
    } else {
      ValBound(s, n - 1);
      MulLe(s[n - 1], 255, Pow256(n - 1));
    }
  }

  lemma MulLe(a: int, b: int, c: int)
    requires 0 <= a <= b && 0 <= c
    ensures 0 <= a * c <= b * c
  {
  }

  /** Replacing one limb moves the value by its weight. */
  lemma {:induction false} ValUpdate(s: seq<int>, k: nat, v: int, n: nat)
    requires n <= |s| && k < |s|
    ensures Val(s[k := v], n) == if k < n then Val(s, n) + (v - s[k]) * Pow256(k) else Val(s, n)
  {
    if n == 0 {
    } else {
      ValUpdate(s, k, v, n - 1);
    }
  }

  /** The value is linear in the limbs. */
  lemma {:induction false} ValLinear(x: seq<int>, a: seq<int>, b: seq<int>, c: int, n: nat)
    requires n <= |x| && n <= |a| && n <= |b|
    requires forall k :: 0 <= k < n ==> x[k] == a[k] + c * b[k]
    ensures Val(x, n) == Val(a, n) + c * Val(b, n)
  {
    if n == 0 {
    } else {
      ValLinear(x, a, b, c, n - 1);
      var p := Pow256(n - 1);
      assert (a[n - 1] + c * b[n - 1]) * p == a[n - 1] * p + c * (b[n - 1] * p);
    }
  }

  /** The limbs from n upwards weigh 256^n. */
  lemma {:induction false} NumSplit(s: seq<int>, n: nat, m: nat)
    requires n <= m <= |s|
    ensures Val(s, m) == Val(s, n) + Pow256(n) * Val(s[n..], m - n)
  {
    hide Pow256;
    if m != n {
      NumSplit(s, n, m - 1);
      Pow256Add(n, m - 1 - n);
      var p, q, v := Pow256(n), Pow256(m - 1 - n), s[m - 1];
      assert v * (p * q) == p * (v * q);
      assert p * (Val(s[n..], m - 1 - n) + v * q) == p * Val(s[n..], m - 1 - n) + p * (v * q);
    }
  }

  /** One step of a carry loop: the low byte of the running sum is stored and
      the rest is carried, so stored bytes plus carry stay equal to the summands
      consumed so far. */
  lemma CarryStep(out: seq<int>, x: seq<int>, n: nat, u: int, c: int)
    requires n < |out| && n < |x|
    requires Val(out, n) + u * Pow256(n) == c + Val(x, n)
    ensures Val(out[n := (u + x[n]) % 256], n + 1) + (u + x[n]) / 256 * Pow256(n + 1) == c + Val(x, n + 1)
  {
    var w, p := u + x[n], Pow256(n);
    ValSame(out, out[n := w % 256], n);
    assert w * p == (w % 256 + 256 * (w / 256)) * p;
    assert (u + x[n]) * p == u * p + x[n] * p;
  }

  /** The last limb of a carry loop keeps its carry. */
  lemma CarryTop(out: seq<int>, x: seq<int>, n: nat, u: int, c: int)
    requires |out| == |x| == n + 1
    requires Val(out, n) + u * Pow256(n) == c + Val(x, n)
    requires out[n] == u + x[n]
    ensures Num(out) == c + Num(x)
  {
    assert (u + x[n]) * Pow256(n) == u * Pow256(n) + x[n] * Pow256(n);
  }

  /** Two numbers with n normal limbs and any top limb that denote the same
      value have the same limbs. */
  lemma {:induction false} LimbsUnique(s: seq<int>, t: seq<int>, n: nat)
    requires |s| == |t| == n + 1 && Normal(s, n) && Normal(t, n)
    requires Num(s) == Num(t)
    ensures s == t
  {
    var p := Pow256(n);
    ValBound(s, n);
    ValBound(t, n);
    var d := s[n] - t[n];
    assert Val(t, n) - Val(s, n) == d * p;
    if d > 0 {
      MulLe(1, d, p);
      assert false;
    } else if d < 0 {
      MulLe(1, -d, p);
      assert false;
    }
    if n > 0 {
      assert s[..n][..n] == s[..n];
      ValSame(s, s[..n], n);
      ValSame(t, t[..n], n);
      LimbsUnique(s[..n], t[..n], n - 1);
    }
    assert s == s[..n] + [s[n]];
    assert t == t[..n] + [t[n]];
  }

  /** Quotient and remainder are determined by v = q * d + r with 0 <= r < d. */
  lemma QuotientUnique(v: int, q: int, r: int, d: int)
    requires 0 < d && v == r + q * d && 0 <= r < d
    ensures v % d == r && v / d == q
  {
    assert v == v / d * d + v % d;
    var k := v / d - q;
    assert k * d == r - v % d;
    if k > 0 {
      MulLe(1, k, d);
      assert false;
    } else if k < 0 {
      MulLe(1, -k, d);
      assert false;
    }
  }

  lemma DivTwice(v: nat, a: nat, b: nat)
    requires 0 < a && 0 < b
    ensures a * b > 0 && v / a / b == v / (a * b)
  {
    var q, r := v / a / b, v / a % b;
    assert v / a == q * b + r;
    assert v == v / a * a + v % a;
    MulLe(r, b - 1, a);
    assert v == (r * a + v % a) + q * (a * b);
    QuotientUnique(v, q, r * a + v % a, a * b);
  }

  // ----- the limbs of a number

  function LimbsOf(v: nat, n: nat): (s: seq<byte>)
    ensures |s| == n
  {
    seq(n, k requires 0 <= k => v / Pow256(k) % 256)
  }

  lemma LimbsOfNumber(v: nat, n: nat)
    requires v < Pow256(n)
    ensures Normal(LimbsOf(v, n), n) && Num(LimbsOf(v, n)) == v
  {
    LimbsOfValue(v, LimbsOf(v, n), n);
    hide Val, Pow256;
    QuotientUnique(v, 0, v, Pow256(n));
  }

  lemma {:induction false} LimbsOfValue(v: nat, s: seq<int>, n: nat)
    requires n <= |s| && forall k :: 0 <= k < n ==> s[k] == v / Pow256(k) % 256
    ensures Val(s, n) == v % Pow256(n)
  {
    hide Val, Pow256;
    if n == 0 {
      NoLimbs(v, s);
    } else {
      LimbsOfValue(v, s, n - 1);
      LimbStep(v, s, n - 1);
    }
  }

  lemma NoLimbs(v: nat, s: seq<int>)
    ensures Val(s, 0) == v % Pow256(0)
  {
  }

  lemma LimbStep(v: nat, s: seq<int>, n: nat)
    requires n < |s| && s[n] == v / Pow256(n) % 256 && Val(s, n) == v % Pow256(n)
    ensures Val(s, n + 1) == v % Pow256(n + 1)
  {
    assert Pow256(n + 1) == 256 * Pow256(n);
    ValStep(s, n);
    hide Val, Pow256;
    NextLimb(v, Pow256(n));
  }

  lemma NextLimb(v: nat, p: nat)
    requires p > 0
    ensures v % (256 * p) == v % p + v / p % 256 * p
  {
    var q, r := v / p, v % p;
    var h, l := q / 256, q % 256;
    assert v == q * p + r && q == 256 * h + l;
    assert q * p == h * (256 * p) + l * p;
    MulLe(l, 255, p);
    QuotientUnique(v, h, r + l * p, 256 * p);
  }
}
