/** The prime field of Curve25519: residues modulo 2^255 - 19. */
module Field {
  import opened Common

  const P: int := 0x7fffffff_ffffffff_ffffffff_ffffffff_ffffffff_ffffffff_ffffffff_ffffffed

  function Add(x: int, y: int): int { (x + y) % P }
  function Sub(x: int, y: int): int { (x - y) % P }
  function Mul(x: int, y: int): int { (x * y) % P }

  ghost function Pow(x: int, e: nat): int {
    if e == 0 then 1 else Mul(x, Pow(x, e - 1))
  }

  /** Adding a multiple of P does not change the residue. */
  lemma ModEq(a: int, b: int, k: int)
    requires a == b + k * P
    ensures a % P == b % P
  {
  }

  lemma ModAdd(a: int, b: int)
    ensures (a + b) % P == Add(a % P, b % P)
  {
    ModEq(a + b, a % P + b % P, a / P + b / P);
  }

  lemma ModSub(a: int, b: int)
    ensures (a - b) % P == Sub(a % P, b % P)
  {
    ModEq(a - b, a % P - b % P, a / P - b / P);
  }

  lemma ModMul(a: int, b: int)
    ensures (a * b) % P == Mul(a % P, b % P)
  {
    var qa, ra, qb, rb := a / P, a % P, b / P, b % P;
    assert a == ra + qa * P && b == rb + qb * P;
    var k := qa * rb + qb * ra + qa * qb * P;
    assert (ra + qa * P) * (rb + qb * P) == ra * rb + k * P;
    ModEq(a * b, ra * rb, k);
  }

  lemma MulCommutes(a: int, b: int)
    ensures Mul(a, b) == Mul(b, a)
  {
  }

  lemma MulAssociates(a: int, b: int, c: int)
    ensures Mul(Mul(a, b), c) == Mul(a, Mul(b, c))
  {
    var ab, bc := a * b / P, b * c / P;
    assert a * b == Mul(a, b) + ab * P && b * c == Mul(b, c) + bc * P;
    assert Mul(a, b) * c == a * b * c - ab * c * P;
    assert a * Mul(b, c) == a * (b * c) - a * bc * P;
    assert a * (b * c) == a * b * c;
    ModEq(Mul(a, b) * c, a * Mul(b, c), a * bc - ab * c);
  }

  /** (a - b)^2 and (b - a)^2 are the same residue. */
  lemma SquareOfDifference(a: int, b: int)
    ensures Mul(Sub(a, b), Sub(a, b)) == Mul(Sub(b, a), Sub(b, a))
  {
    ModMul(a - b, a - b);
    ModMul(b - a, b - a);
    assert (a - b) * (a - b) == (b - a) * (b - a);
  }

  lemma {:induction false} PowAdd(x: int, m: nat, n: nat)
    ensures Mul(Pow(x, m), Pow(x, n)) == Pow(x, m + n)
  {
    if m == 0 {
      PowReduced(x, n);
    } else {
      MulAssociates(x, Pow(x, m - 1), Pow(x, n));
      PowAdd(x, m - 1, n);
    }
  }

  lemma PowReduced(x: int, n: nat)
    ensures 0 <= Pow(x, n) < P
  {
  }

  lemma {:induction false} Pow2Add(m: nat, n: nat)
    ensures Pow2(m + n) == Pow2(m) * Pow2(n)
  {
    if m == 0 {
    } else {
      Pow2Add(m - 1, n);
    }
  }

  lemma Pow2Of255()
    ensures Pow2(255) == P + 19
  {
    hide Pow2;
    Pow2Of15();
    Pow2Add(15, 15);
    Pow2Add(30, 30);
    Pow2Add(60, 60);
    Pow2Add(120, 120);
    Pow2Add(240, 15);
  }

  lemma Pow2Of15()
    ensures Pow2(15) == 0x8000
  {
    assert Pow2(5) == 32;
    Pow2Add(5, 5);
    Pow2Add(10, 5);
  }
}
