/** Commutative groups and integer multiples of their elements. */
module Group {
  datatype Group<!G(!new)> = Group(zero: G, add: (G, G) -> G, neg: G -> G)
  {
    ghost predicate IsAbelian() {
      && (forall x, y :: add(x, y) == add(y, x))
      && (forall x, y, z :: add(add(x, y), z) == add(x, add(y, z)))
      && (forall x :: add(x, zero) == x)
      && (forall x :: add(x, neg(x)) == zero)
    }

    /** n * p, for any integer n. */
    ghost function Times(n: int, p: G): G
      decreases if n < 0 then -n else n
    {
      if n == 0 then zero
      else if n > 0 then add(Times(n - 1, p), p)
      else add(Times(n + 1, p), neg(p))
    }

    lemma Commutes(x: G, y: G)
      requires IsAbelian()
      ensures add(x, y) == add(y, x)
    {
    }

    lemma Associates(x: G, y: G, z: G)
      requires IsAbelian()
      ensures add(add(x, y), z) == add(x, add(y, z))
    {
    }

    lemma Units(x: G)
      requires IsAbelian()
      ensures add(x, zero) == x && add(zero, x) == x && add(x, neg(x)) == zero && add(neg(x), x) == zero
    {
    }

    /** (w + x) + (y + z) = (w + y) + (x + z) */
    lemma Exchange(w: G, x: G, y: G, z: G)
      requires IsAbelian()
      ensures add(add(w, x), add(y, z)) == add(add(w, y), add(x, z))
    {
      hide IsAbelian;
      Associates(w, x, add(y, z));
      Associates(x, y, z);
      Commutes(x, y);
      Associates(y, x, z);
      Associates(w, y, add(x, z));
    }

    lemma TimesNext(n: int, p: G)
      requires IsAbelian()
      ensures Times(n + 1, p) == add(Times(n, p), p)
    {
      hide IsAbelian;
      if n < 0 {
        Associates(Times(n + 1, p), neg(p), p);
        Units(p);
        Units(Times(n + 1, p));
      }
    }

    lemma {:induction false} TimesAdd(m: int, n: int, p: G)
      requires IsAbelian()
      ensures Times(m + n, p) == add(Times(m, p), Times(n, p))
      decreases if n < 0 then -n else n
    {
      hide IsAbelian;
      Units(Times(m, p));
      if n > 0 {
        TimesAdd(m, n - 1, p);
        TimesNext(m + n - 1, p);
        Associates(Times(m, p), Times(n - 1, p), p);
      } else if n < 0 {
        TimesAdd(m, n + 1, p);
        TimesNext(m + n, p);
        var t := Times(m + n, p);
        Associates(t, p, neg(p));
        Units(p);
        Units(t);
        Associates(Times(m, p), Times(n + 1, p), neg(p));
      }
    }

    /** m * (n * p) = (m * n) * p */
    lemma {:induction false} TimesTimes(m: nat, n: int, p: G)
      requires IsAbelian()
      ensures Times(m, Times(n, p)) == Times(m * n, p)
    {
      hide IsAbelian;
      if m > 0 {
        TimesTimes(m - 1, n, p);
        TimesAdd((m - 1) * n, n, p);
        assert (m - 1) * n + n == m * n;
      }
    }

    /** n * (p + q) = n * p + n * q */
    lemma {:induction false} TimesSum(n: nat, p: G, q: G)
      requires IsAbelian()
      ensures Times(n, add(p, q)) == add(Times(n, p), Times(n, q))
    {
      hide IsAbelian;
      Units(zero);
      if n > 0 {
        TimesSum(n - 1, p, q);
        Exchange(Times(n - 1, p), Times(n - 1, q), p, q);
      }
    }

    /** The inverse is determined by x + y = 0. */
    lemma NegUnique(x: G, y: G)
      requires IsAbelian() && add(x, y) == zero
      ensures y == neg(x)
    {
      hide IsAbelian;
      Associates(neg(x), x, y);
      Units(x);
      Units(y);
      Units(neg(x));
    }

    lemma TimesNegative(n: int, p: G)
      requires IsAbelian()
      ensures Times(-n, p) == neg(Times(n, p))
    {
      hide IsAbelian;
      TimesAdd(n, -n, p);
      NegUnique(Times(n, p), Times(-n, p));
    }

    /** If l * p = 0, only the residue of n modulo l matters. */
    lemma TimesMod(n: nat, l: nat, p: G)
      requires IsAbelian() && l > 0 && Times(l, p) == zero
      ensures Times(n % l, p) == Times(n, p)
    {
      hide IsAbelian;
      var q, r := n / l, n % l;
      TimesTimes(q, l, p);
      TimesOfZero(q);
      assert n == r + q * l;
      TimesAdd(r, q * l, p);
      Units(Times(r, p));
    }

    lemma {:induction false} TimesOfZero(n: nat)
      requires IsAbelian()
      ensures Times(n, zero) == zero
    {
      hide IsAbelian;
      Units(zero);
      if n > 0 {
        TimesOfZero(n - 1);
      }
    }

    /** h * (-(a * p)) + (x + k mod l) * p = k * p, where x = h * a */
    lemma TimesCancel(h: nat, a: nat, x: nat, k: nat, l: nat, p: G)
      requires IsAbelian() && l > 0 && Times(l, p) == zero && x == h * a
      ensures add(Times(h, neg(Times(a, p))), Times((x + k) % l, p)) == Times(k, p)
    {
      hide IsAbelian, Times;
      var b: int := 0 - a;
      TimesNegative(a, p);
      TimesTimes(h, b, p);
      assert h * b == 0 - x;
      TimesReduce(x, k, l, p);
    }

    lemma TimesReduce(x: nat, k: nat, l: nat, p: G)
      requires IsAbelian() && l > 0 && Times(l, p) == zero
      ensures add(Times(0 - x, p), Times((x + k) % l, p)) == Times(k, p)
    {
      hide IsAbelian, Times;
      TimesMod(x + k, l, p);
      TimesAdd(0 - x, x + k, p);
    }

    lemma TimesFirst(p: G)
      requires IsAbelian()
      ensures Times(0, p) == zero && Times(1, p) == p
    {
      hide IsAbelian;
      Units(p);
    }
  }
}
