/** What the Montgomery ladder is for: a step doubles and adds, and the ladder multiplies. */
module MontgomeryLadder {
  import opened Common
  import opened Group
  import opened Bits
  import opened Rfc7748
  import Field
  import Limbs

  // ----- one step on the curve y^2 = x^3 + 486662 x^2 + x

  /** The first half of a step doubles, in projective coordinates of the curve. */
  lemma StepDoubles(x1: int, s: Ladder)
    ensures var x, z, r := s.x2, s.z2, Step(x1, s);
            && r.x2 == (x * x - z * z) * (x * x - z * z) % Field.P
            && r.z2 == 4 * (x * z) * (x * x + 486662 * (x * z) + z * z) % Field.P
  {
    var x, z := s.x2, s.z2;
    var a, b := (x + z) * (x + z), (x - z) * (x - z);
    DoubleResidues(x1, s, a, b);
    DoubleIdentities(x, z, a, b);
  }

  lemma DoubleResidues(x1: int, s: Ladder, a: int, b: int)
    requires a == (s.x2 + s.z2) * (s.x2 + s.z2) && b == (s.x2 - s.z2) * (s.x2 - s.z2)
    ensures Step(x1, s).x2 == a * b % Field.P && Step(x1, s).z2 == (a - b) * (a + 121665 * (a - b)) % Field.P
  {
    hide Field.Mul;
    var u, v := s.x2 + s.z2, s.x2 - s.z2;
    Field.ModMul(u, u);
    Field.ModMul(v, v);
    DoubleFromSquares(a, b);
  }

  lemma DoubleFromSquares(a: int, b: int)
    ensures var aa, bb := a % Field.P, b % Field.P;
            var e := Field.Sub(aa, bb);
            && Field.Mul(aa, bb) == a * b % Field.P
            && Field.Mul(e, Field.Add(aa, Field.Mul(121665, e))) == (a - b) * (a + 121665 * (a - b)) % Field.P
  {
    hide Field.Mul, Field.Add, Field.Sub;
    var d := a - b;
    Field.ModMul(a, b);
    Field.ModSub(a, b);
    Field.ModMul(121665, d);
    Field.ModAdd(a, 121665 * d);
    Field.ModMul(d, a + 121665 * d);
  }

  lemma DoubleIdentities(x: int, z: int, a: int, b: int)
    requires a == (x + z) * (x + z) && b == (x - z) * (x - z)
    ensures a * b == (x * x - z * z) * (x * x - z * z) && a - b == 4 * (x * z)
    ensures a + 121665 * (a - b) == x * x + 486662 * (x * z) + z * z
  {
    var u, v := x + z, x - z;
    assert u * v == x * x - z * z;
    assert u * u * (v * v) == u * v * (u * v);
    assert a == x * x + 2 * (x * z) + z * z && b == x * x - 2 * (x * z) + z * z;
  }

  /** The second half adds two points whose difference has the affine coordinate x1. */
  lemma StepAdds(x1: int, s: Ladder)
    ensures var r := Step(x1, s);
            var u, v := s.x2 * s.x3 - s.z2 * s.z3, s.z2 * s.x3 - s.x2 * s.z3;
            r.x3 == 4 * (u * u) % Field.P && r.z3 == x1 * (4 * (v * v)) % Field.P
  {
    hide *;
    var da, cb := (s.x3 - s.z3) * (s.x2 + s.z2), (s.x3 + s.z3) * (s.x2 - s.z2);
    AddResidues(x1, s, da, cb);
    AddIdentities(s.x2, s.z2, s.x3, s.z3);
    SquareOfTwice(da + cb, s.x2 * s.x3 - s.z2 * s.z3);
    SquareOfTwice(da - cb, s.z2 * s.x3 - s.x2 * s.z3);
  }

  lemma SquareOfTwice(a: int, u: int)
    requires a == 2 * u
    ensures a * a == 4 * (u * u)
  {
  }

  lemma AddIdentities(x2: int, z2: int, x3: int, z3: int)
    ensures (x3 - z3) * (x2 + z2) + (x3 + z3) * (x2 - z2) == 2 * (x2 * x3 - z2 * z3)
    ensures (x3 - z3) * (x2 + z2) - (x3 + z3) * (x2 - z2) == 2 * (z2 * x3 - x2 * z3)
  {
  }

  lemma AddResidues(x1: int, s: Ladder, da: int, cb: int)
    requires da == (s.x3 - s.z3) * (s.x2 + s.z2) && cb == (s.x3 + s.z3) * (s.x2 - s.z2)
    ensures Step(x1, s).x3 == (da + cb) * (da + cb) % Field.P && Step(x1, s).z3 == x1 * ((da - cb) * (da - cb)) % Field.P
  {
    hide Field.Mul;
    Field.ModMul(s.x3 - s.z3, s.x2 + s.z2);
    Field.ModMul(s.x3 + s.z3, s.x2 - s.z2);
    hide *;
    AddHalf(x1, s);
    AddFromProducts(x1, da, cb);
  }

  lemma AddHalf(x1: int, s: Ladder)
    ensures var da, cb := Field.Mul((s.x3 - s.z3) % Field.P, (s.x2 + s.z2) % Field.P),
                          Field.Mul((s.x3 + s.z3) % Field.P, (s.x2 - s.z2) % Field.P);
            var sum, difference := Field.Add(da, cb), Field.Sub(da, cb);
            && Step(x1, s).x3 == Field.Mul(sum, sum)
            && Step(x1, s).z3 == Field.Mul(x1, Field.Mul(difference, difference))
  {
    hide Field.Mul;
  }

  lemma AddFromProducts(x1: int, da: int, cb: int)
    ensures var sum, difference := Field.Add(da % Field.P, cb % Field.P), Field.Sub(da % Field.P, cb % Field.P);
            && Field.Mul(sum, sum) == (da + cb) * (da + cb) % Field.P
            && Field.Mul(x1, Field.Mul(difference, difference)) == x1 * ((da - cb) * (da - cb)) % Field.P
  {
    hide *;
    Field.ModAdd(da, cb);
    Field.ModSub(da, cb);
    Field.ModMul(da + cb, da + cb);
    Field.ModMul(da - cb, da - cb);
    TimesResidue(x1, (da - cb) * (da - cb));
  }

  lemma TimesResidue(x: int, v: int)
    ensures Field.Mul(x, v % Field.P) == x * v % Field.P
  {
    Field.ModMul(x, v);
    Field.ModMul(x, v % Field.P);
    ResidueTwice(v);
    hide *;
    UnfoldMul(x, v % Field.P);
  }

  lemma UnfoldMul(x: int, y: int)
    ensures Field.Mul(x, y) == x * y % Field.P
  {
  }

  lemma ResidueTwice(v: int)
    ensures v % Field.P % Field.P == v % Field.P
  {
  }

  // ----- the whole ladder, over any commutative group whose points have such coordinates

  /** rep says which pairs of residues stand for a point. A step takes points p and q that differ by the base point, in
      either direction, to p + p and p + q. */
  ghost predicate StepsRight<G(!new)>(g: Group<G>, base: G, x1: int, rep: (G, int, int) -> bool) {
    forall p, q, s: Ladder ::
      (q == g.add(p, base) || p == g.add(q, base)) && rep(p, s.x2, s.z2) && rep(q, s.x3, s.z3) ==>
        var r := Step(x1, s); rep(g.add(p, p), r.x2, r.z2) && rep(g.add(p, q), r.x3, r.z3)
  }

  /** The state of the ladder stands for m times the base point and for one more. */
  ghost predicate StandsFor<G(!new)>(g: Group<G>, base: G, rep: (G, int, int) -> bool, m: nat, s: Ladder) {
    rep(g.Times(m, base), s.x2, s.z2) && rep(g.Times(m + 1, base), s.x3, s.z3)
  }

  lemma RoundStandsFor<G(!new)>(g: Group<G>, base: G, x1: int, rep: (G, int, int) -> bool, m: nat, s: Ladder, bit: int)
    requires g.IsAbelian() && StepsRight(g, base, x1, rep) && StandsFor(g, base, rep, m, s) && (bit == 0 || bit == 1)
    ensures StandsFor(g, base, rep, 2 * m + bit, CSwap(bit, Step(x1, CSwap(bit, s))))
  {
    hide g.IsAbelian, g.Times, Step;
    g.TimesNext(m, base);
    g.TimesAdd(m, m, base);
    g.TimesAdd(m, m + 1, base);
    g.TimesAdd(m + 1, m, base);
    g.TimesAdd(m + 1, m + 1, base);
    var p, q := g.Times(m, base), g.Times(m + 1, base);
    assert q == g.add(p, base);
  }

  /** t rounds with the bits of k take m to m * 2^t + k mod 2^t. */
  lemma {:induction false} LoopStandsFor<G(!new)>(g: Group<G>, base: G, x1: int, rep: (G, int, int) -> bool, k: nat, t: nat,
                                                  m: nat, s: Ladder)
    requires g.IsAbelian() && StepsRight(g, base, x1, rep) && StandsFor(g, base, rep, m, s)
    ensures StandsFor(g, base, rep, m * Pow2(t) + k % Pow2(t), EagerLoop(k, x1, t, s))
    decreases t
  {
    hide g.IsAbelian, StepsRight, StandsFor, Step, CSwap, Bit;
    if t == 0 {
      assert m * Pow2(0) + k % Pow2(0) == m;
    } else {
      var bit := Bit(k, t - 1);
      BitRange(k, t - 1);
      RoundStandsFor(g, base, x1, rep, m, s, bit);
      LoopStandsFor(g, base, x1, rep, k, t - 1, 2 * m + bit, CSwap(bit, Step(x1, CSwap(bit, s))));
      BitIs(k, t - 1);
      NextBit(k, m, Pow2(t - 1), bit);
      assert Pow2(t) == 2 * Pow2(t - 1);
    }
  }

  lemma NextBit(k: nat, m: nat, p: nat, bit: int)
    requires p > 0 && bit == k / p % 2
    ensures (2 * m + bit) * p + k % p == m * (2 * p) + k % (2 * p)
  {
    var q, r := k / p, k % p;
    var h := q / 2;
    assert k == q * p + r && q == 2 * h + bit;
    assert q * p == h * (2 * p) + bit * p;
    Limbs.MulLe(bit, 1, p);
    Limbs.QuotientUnique(k, h, bit * p + r, 2 * p);
    assert (2 * m + bit) * p == m * (2 * p) + bit * p;
  }

  lemma {:induction false} ShrIs(x: nat, n: nat)
    ensures Shr(x, n) == x / Pow2(n)
    decreases n
  {
    if n == 0 {
    } else {
      ShrIs(x / 2, n - 1);
      Limbs.DivTwice(x, 2, Pow2(n - 1));
    }
  }

  lemma BitIs(k: nat, t: nat)
    ensures Bit(k, t) == k / Pow2(t) % 2
  {
    ShrIs(k, t);
  }

  /** The residue Multiple returns is x / z for coordinates that stand for k times the base point. */
  lemma LadderMultiplies<G(!new)>(g: Group<G>, base: G, u: int, rep: (G, int, int) -> bool, k: nat)
    requires g.IsAbelian() && StepsRight(g, base, u % Field.P, rep) && k < Pow2(255)
    requires rep(g.zero, 1, 0) && rep(base, u % Field.P, 1)
    ensures exists x, z :: rep(g.Times(k, base), x, z) && Multiple(k, u) == Field.Mul(x, Field.Pow(z, Field.P - 2))
  {
    hide g.IsAbelian, StepsRight, Step, Field.Pow, Field.Mul, Pow2;
    var x1 := u % Field.P;
    var s := Ladder(1, 0, x1, 1);
    StartsRight(g, base);
    LoopStandsFor(g, base, x1, rep, k, 255, 0, s);
    EagerIsDeferred(k, x1, 255, 0, s);
    Limbs.QuotientUnique(k, 0, k, Pow2(255));
    var r := EagerLoop(k, x1, 255, s);
    assert rep(g.Times(k, base), r.x2, r.z2);
  }

  lemma StartsRight<G(!new)>(g: Group<G>, base: G)
    requires g.IsAbelian()
    ensures g.Times(0, base) == g.zero && g.Times(1, base) == base
  {
    hide g.IsAbelian;
    g.TimesFirst(base);
  }

  // ----- decoding scalars, bit by bit

  /** Bits 0 to 2 and 255 are cleared and bit 254 is set; the others are those of the number. */
  lemma DecodeScalarBits(n: nat, t: nat)
    ensures Bit(DecodeScalar(n), t) == if t < 3 || t > 254 then 0 else if t == 254 then 1 else Bit(n, t)
  {
    var r := n / 8 % (POW254 / 8);
    var d := DecodeScalar(n);
    assert d == 8 * (r + POW254 / 8);
    EightTimes(r + POW254 / 8, t);
    if t >= 3 {
      var w := t - 3;
      ShlIs(1);
      ShlIs(n / 8 / (POW254 / 8));
      hide Shr, Shl;
      ShrAdd(n, 3, w);
      ShrThree(n);
      if w < 251 {
        ShrLow(r, 1, 251, w);
        ShrLow(r, n / 8 / (POW254 / 8), 251, w);
      } else {
        ShrAbove(r, 251, w - 251);
      }
    }
  }

  lemma ShrThree(n: nat)
    ensures Shr(n, 3) == n / 8
  {
  }

  lemma EightTimes(e: nat, t: nat)
    ensures t < 3 ==> Bit(8 * e, t) == 0
    ensures t >= 3 ==> Shr(8 * e, t) == Shr(e, t - 3)
  {
    if t >= 3 {
      hide *;
      ShrAdd(8 * e, 3, t - 3);
      ShrThree(8 * e);
    } else {
      LowBits(8 * e, t);
    }
  }

  lemma LowBits(x: nat, t: nat)
    requires x % 8 == 0 && t < 3
    ensures Bit(x, t) == 0
  {
    assert Shr(x, 0) == x && Shr(x, 1) == x / 2 && Shr(x, 2) == x / 2 / 2;
  }

  lemma ShlIs(z: nat)
    ensures Shl(z, 251) == z * (POW254 / 8)
  {
    hide Shl, Pow2;
    ShlPow2(z, 251);
    Field.Pow2Of255();
    Field.Pow2Add(251, 4);
    Pow2Of4();
  }

  lemma Pow2Of4()
    ensures Pow2(4) == 16
  {
  }

  lemma {:induction false} ShlPow2(z: nat, n: nat)
    ensures Shl(z, n) == z * Pow2(n)
  {
    if n == 0 {
    } else {
      ShlPow2(z, n - 1);
      assert 2 * (z * Pow2(n - 1)) == z * (2 * Pow2(n - 1));
    }
  }

  /** Above the top bit of r + 2^n there is that bit and nothing else. */
  lemma ShrAbove(r: nat, n: nat, u: nat)
    requires r < Shl(1, n)
    ensures Shr(r + Shl(1, n), n + u) == if u == 0 then 1 else 0
  {
    ShrTop(r, n);
    ShrAdd(r + Shl(1, n), n, u);
    ShrOne(u);
  }

  lemma {:induction false} ShrTop(r: nat, n: nat)
    requires r < Shl(1, n)
    ensures Shr(r + Shl(1, n), n) == 1
    decreases n
  {
    if n == 0 {
    } else {
      assert (r + Shl(1, n)) / 2 == r / 2 + Shl(1, n - 1);
      ShrTop(r / 2, n - 1);
    }
  }

  lemma {:induction false} ShrOne(u: nat)
    ensures Shr(1, u) == if u == 0 then 1 else 0
  {
    if u == 0 {
    } else {
      ShrZero(u - 1);
    }
  }

  lemma {:induction false} ShrZero(u: nat)
    ensures Shr(0, u) == 0
  {
    if u == 0 {
    } else {
      ShrZero(u - 1);
    }
  }
}
