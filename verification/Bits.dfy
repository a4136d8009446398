/** Bitwise operators on non-negative integers, one binary digit at a time. */
module Bits {
  function Xor(x: nat, y: nat): nat {
    if x == 0 then y
    else if y == 0 then x
    else (x + y) % 2 + 2 * Xor(x / 2, y / 2)
  }

  function And(x: nat, y: nat): nat {
    if x == 0 || y == 0 then 0
    else (if x % 2 == 1 && y % 2 == 1 then 1 else 0) + 2 * And(x / 2, y / 2)
  }

  /** A word of n ones. */
  function Ones(n: nat): nat {
    if n == 0 then 0 else 1 + 2 * Ones(n - 1)
  }

  lemma XorDigits(x: nat, y: nat)
    ensures Xor(x, y) % 2 == (x + y) % 2 && Xor(x, y) / 2 == Xor(x / 2, y / 2)
  {
  }

  /** Xor twice with the same word is the identity. */
  lemma {:induction false} XorTwice(x: nat, y: nat)
    ensures Xor(y, Xor(x, y)) == x
    decreases x + y
  {
    if x != 0 || y != 0 {
      hide Xor;
      XorTwice(x / 2, y / 2);
      XorDigits(x, y);
      XorDigits(y, Xor(x, y));
    }
  }

  lemma {:induction false} XorCommutes(x: nat, y: nat)
    ensures Xor(x, y) == Xor(y, x)
  {
    if x != 0 && y != 0 {
      XorCommutes(x / 2, y / 2);
    }
  }

  lemma {:induction false} XorBound(x: nat, y: nat, n: nat)
    requires x <= Ones(n) && y <= Ones(n)
    ensures Xor(x, y) <= Ones(n)
  {
    if x != 0 && y != 0 {
      XorBound(x / 2, y / 2, n - 1);
    }
  }

  /** A mask of ones keeps every word it covers. */
  lemma {:induction false} AndOnes(n: nat, x: nat)
    requires x <= Ones(n)
    ensures And(Ones(n), x) == x
  {
    if x == 0 {
    } else {
      AndOnes(n - 1, x / 2);
    }
  }

  lemma Ones32()
    ensures Ones(32) == 0xffff_ffff
  {
    assert Ones(8) == 0xff;
    assert Ones(16) == 0xffff;
    assert Ones(24) == 0xff_ffff;
  }

  /** The branch-free choice y ^ (mask & (x ^ y)): x under a mask of ones, y under zero. */
  lemma MaskedChoice(mask: nat, x: nat, y: nat)
    requires mask == 0 || mask == 0xffff_ffff
    requires x <= 0xffff_ffff && y <= 0xffff_ffff
    ensures Xor(y, And(mask, Xor(x, y))) == if mask == 0 then y else x
    ensures Xor(y, And(mask, Xor(y, x))) == if mask == 0 then y else x
  {
    Ones32();
    XorTwice(x, y);
    XorCommutes(x, y);
    XorBound(x, y, 32);
    if mask != 0 {
      AndOnes(32, Xor(x, y));
    }
  }

  /** x >> n */
  function Shr(x: nat, n: nat): nat
    decreases n
  {
    if n == 0 then x else Shr(x / 2, n - 1)
  }

  lemma {:induction false} ShrAdd(x: nat, m: nat, n: nat)
    ensures Shr(x, m + n) == Shr(Shr(x, m), n)
    decreases m
  {
    if m == 0 {
    } else {
      ShrAdd(x / 2, m - 1, n);
    }
  }

  lemma ShrByte(x: nat)
    ensures Shr(x, 8) == x / 256
  {
    ShrAdd(x, 4, 4);
    assert Shr(x, 4) == x / 16;
    assert Shr(x / 16, 4) == x / 16 / 16;
  }

  /** z << n */
  function Shl(z: nat, n: nat): nat {
    if n == 0 then z else 2 * Shl(z, n - 1)
  }

  /** Bits from position n upwards do not affect lower bits. */
  lemma {:induction false} ShrLow(x: nat, z: nat, n: nat, r: nat)
    requires r < n
    ensures Shr(x + Shl(z, n), r) % 2 == Shr(x, r) % 2
    decreases r
  {
    if r == 0 {
    } else {
      assert (x + Shl(z, n)) / 2 == x / 2 + Shl(z, n - 1);
      ShrLow(x / 2, z, n - 1, r - 1);
    }
  }

  lemma ShlByte(z: nat)
    ensures Shl(z, 8) == 256 * z
  {
    assert Shl(z, 1) == 2 * z;
    assert Shl(z, 2) == 4 * z;
    assert Shl(z, 3) == 8 * z;
    assert Shl(z, 4) == 16 * z;
    assert Shl(z, 5) == 32 * z;
    assert Shl(z, 6) == 64 * z;
    assert Shl(z, 7) == 128 * z;
  }
}
