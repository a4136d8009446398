/**
 Ed25519 signing and verification over an abstract commutative group: the point
 encodings, the table of base multiples and SHA-512 are parameters.
 */
module Ed25519 {
  import opened Common
  import opened Limbs
  import opened Group
  import opened Recoding
  import opened Sc25519
  import Rfc7748
  import X25519

  datatype Curve<!G(!new)> = Curve(
    group: Group<G>,
    base: G,
    table: seq<G>,
    pack: G -> seq<byte>,
    unpackneg: seq<byte> -> Option<G>,
    sha512: seq<byte> -> seq<byte>)
  {
    /** base has order dividing L, the table holds k * 8^i * base for k up to 4, and
        decoding an encoded point gives its negation. */
    ghost predicate Valid() {
      && group.IsAbelian()
      && group.Times(L, base) == group.zero
      && |table| == 425
      && (forall i, k :: 0 <= i < 85 && 0 <= k < 5 ==> table[5 * i + k] == group.Times(k * PowB(8, i), base))
      && (forall p :: |pack(p)| == 32 && unpackneg(pack(p)) == Some(group.neg(p)))
      && (forall m :: |sha512(m)| == 64)
    }

    lemma TableEntry(i: nat, k: nat)
      requires Valid() && i < 85 && k < 5
      ensures |table| == 425 && table[5 * i + k] == group.Times(k * PowB(8, i), base)
    {
      hide group.IsAbelian, PowB;
    }

    lemma Laws()
      requires Valid()
      ensures group.IsAbelian() && group.Times(L, base) == group.zero
    {
      hide group.IsAbelian;
    }

    lemma Encoding(p: G, m: seq<byte>)
      requires Valid()
      ensures |pack(p)| == 32 && unpackneg(pack(p)) == Some(group.neg(p)) && |sha512(m)| == 64
    {
      hide group.IsAbelian;
    }
  }

  // ----- fixed-base multiplication

  /** The table entry for digit b at position pos, negated if b is negative. */
  method ChooseT<G(!new)>(c: Curve<G>, pos: nat, b: int8) returns (t: G)
    requires c.Valid() && pos < 85 && -4 <= b <= 3
    ensures t == c.group.Times(b * PowB(8, pos), c.base)
  {
    hide c.Valid, c.group.IsAbelian, PowB;
    c.Laws();
    ghost var k, w := if b < 0 then -b else b, PowB(8, pos);
    c.TableEntry(pos, k);
    t := c.table[5 * pos];
    if b == 1 || b == -1 { t := c.table[5 * pos + 1]; }
    if b == 2 || b == -2 { t := c.table[5 * pos + 2]; }
    if b == 3 || b == -3 { t := c.table[5 * pos + 3]; }
    if b == -4 { t := c.table[5 * pos + 4]; }
    assert t == c.table[5 * pos + k];
    if b < 0 {
      c.group.TimesNegative(k * w, c.base);
      assert -(k * w) == b * w;
      t := c.group.neg(t);
    }
  }

  method ScalarMultBase<G(!new)>(c: Curve<G>, s: seq<uint32>) returns (r: G)
    requires c.Valid() && IsScalar(s)
    ensures r == c.group.Times(Num(s), c.base)
  {
    hide Digits, PowB, Num, c.Valid, c.group.IsAbelian, c.group.Times;
    c.Laws();
    var b := new int8[85];
    Window3(b, s);
    var d := b[..];
    r := ChooseT(c, 0, d[0]);
    DigitStep(d, 8, 0);
    for i := 1 to 85
      invariant r == c.group.Times(Digits(d, 8, i), c.base)
    {
      var t := ChooseT(c, i, d[i]);
      DigitStep(d, 8, i);
      c.group.TimesAdd(Digits(d, 8, i), d[i] * PowB(8, i), c.base);
      r := c.group.add(r, t);
    }
  }

  // ----- [s1] p1 + [s2] p2

  ghost function Combine<G(!new)>(g: Group<G>, m: int, p1: G, n: int, p2: G): G {
    g.add(g.Times(m, p1), g.Times(n, p2))
  }

  lemma CombineAdd<G(!new)>(g: Group<G>, m: int, p1: G, n: int, p2: G, i: int, j: int)
    requires g.IsAbelian()
    ensures g.add(Combine(g, m, p1, n, p2), Combine(g, i, p1, j, p2)) == Combine(g, m + i, p1, n + j, p2)
  {
    hide g.IsAbelian, g.Times;
    g.Exchange(g.Times(m, p1), g.Times(n, p2), g.Times(i, p1), g.Times(j, p2));
    g.TimesAdd(m, i, p1);
    g.TimesAdd(n, j, p2);
  }

  lemma CombineUnits<G(!new)>(g: Group<G>, p1: G, p2: G)
    requires g.IsAbelian()
    ensures Combine(g, 0, p1, 0, p2) == g.zero && Combine(g, 1, p1, 0, p2) == p1 && Combine(g, 0, p1, 1, p2) == p2
  {
    hide g.IsAbelian, g.Times;
    g.TimesFirst(p1);
    g.TimesFirst(p2);
    g.Units(g.zero);
    g.Units(p1);
    g.Units(p2);
  }

  /** The sixteen combinations i * p1 + j * p2 with i, j < 4, at index i + 4 j. */
  method Precompute<G(!new)>(g: Group<G>, p1: G, p2: G) returns (pre: seq<G>)
    requires g.IsAbelian()
    ensures |pre| == 16 && forall k :: 0 <= k < 16 ==> pre[k] == Combine(g, k % 4, p1, k / 4, p2)
  {
    hide g.IsAbelian, Combine;
    CombineUnits(g, p1, p2);
    pre := [g.zero, p1];
    pre := pre + [g.add(p1, p1)];
    CombineAdd(g, 1, p1, 0, p2, 1, 0);
    pre := pre + [g.add(pre[1], pre[2])];
    CombineAdd(g, 1, p1, 0, p2, 2, 0);
    pre := pre + [p2];
    for k := 5 to 8
      invariant |pre| == k && forall i :: 0 <= i < k ==> pre[i] == Combine(g, i % 4, p1, i / 4, p2)
    {
      CombineAdd(g, k - 4, p1, 0, p2, 0, 1);
      pre := pre + [g.add(pre[k - 4], pre[4])];
    }
    CombineAdd(g, 0, p1, 1, p2, 0, 1);
    pre := pre + [g.add(p2, p2)];
    CombineAdd(g, 1, p1, 0, p2, 0, 2);
    pre := pre + [g.add(pre[1], pre[8])];
    CombineAdd(g, 1, p1, 1, p2, 1, 1);
    pre := pre + [g.add(pre[5], pre[5])];
    CombineAdd(g, 3, p1, 0, p2, 0, 2);
    pre := pre + [g.add(pre[3], pre[8])];
    CombineAdd(g, 0, p1, 1, p2, 0, 2);
    pre := pre + [g.add(pre[4], pre[8])];
    for k := 13 to 16
      invariant |pre| == k && forall i :: 0 <= i < k ==> pre[i] == Combine(g, i % 4, p1, i / 4, p2)
    {
      CombineAdd(g, k - 12, p1, 0, p2, 0, 3);
      pre := pre + [g.add(pre[k - 12], pre[12])];
    }
  }

  /** The number denoted by the digits from position i upwards, in units of 4^i. */
  ghost function Upper(d: seq<int>, i: nat): int
    requires i <= |d|
    decreases |d| - i
  {
    if i == |d| then 0 else d[i] + 4 * Upper(d, i + 1)
  }

  lemma {:induction false} UpperValue(d: seq<int>, i: nat)
    requires i <= |d|
    ensures Digits(d, 4, |d|) == Digits(d, 4, i) + PowB(4, i) * Upper(d, i)
    decreases |d| - i
  {
    if i < |d| {
      UpperValue(d, i + 1);
      var p, u := PowB(4, i), Upper(d, i + 1);
      assert p * (d[i] + 4 * u) == d[i] * p + 4 * p * u;
    }
  }

  /** One round: two doublings and an addition of x * p1 + y * p2. */
  lemma Round<G(!new)>(g: Group<G>, r: G, m: int, p1: G, n: int, p2: G, x: int, y: int)
    requires g.IsAbelian() && r == Combine(g, m, p1, n, p2)
    ensures g.add(g.add(r, r), g.add(r, r)) == Combine(g, 4 * m, p1, 4 * n, p2)
    ensures g.add(g.add(g.add(r, r), g.add(r, r)), Combine(g, x, p1, y, p2)) == Combine(g, 4 * m + x, p1, 4 * n + y, p2)
  {
    hide g.IsAbelian, g.Times, Combine;
    CombineAdd(g, m, p1, n, p2, m, n);
    CombineAdd(g, 2 * m, p1, 2 * n, p2, 2 * m, 2 * n);
    CombineAdd(g, 4 * m, p1, 4 * n, p2, x, y);
  }

  method DoubleScalarMult<G(!new)>(g: Group<G>, p1: G, s1: seq<uint32>, p2: G, s2: seq<uint32>) returns (r: G)
    requires g.IsAbelian() && IsScalar(s1) && IsScalar(s2)
    ensures r == Combine(g, Num(s1), p1, Num(s2), p2)
  {
    hide g.IsAbelian, IsScalar, Digits, Num, Upper, Combine;
    var pre := Precompute(g, p1, p2);
    var buf := new byte[127];
    Interleave2(buf, s1, s2);
    var b := buf[..];
    ghost var lows: seq<int>, highs: seq<int> := Lows(b), Highs(b);
    UpperTop(lows);
    UpperTop(highs);
    r := pre[b[126]];
    var i := 126;
    while i > 0
      invariant 0 <= i <= 126
      invariant r == Combine(g, Upper(lows, i), p1, Upper(highs, i), p2)
    {
      i := i - 1;
      Round(g, r, Upper(lows, i + 1), p1, Upper(highs, i + 1), p2, b[i] % 4, b[i] / 4);
      UpperStep(lows, i);
      UpperStep(highs, i);
      r := g.add(r, r);
      r := g.add(r, r);
      if b[i] != 0 {
        r := g.add(r, pre[b[i]]);
      }
    }
    UpperWhole(lows);
    UpperWhole(highs);
  }

  lemma UpperTop(d: seq<int>)
    requires |d| == 127
    ensures Upper(d, 126) == d[126]
  {
  }

  lemma UpperStep(d: seq<int>, i: nat)
    requires i < |d|
    ensures Upper(d, i) == d[i] + 4 * Upper(d, i + 1)
  {
  }

  lemma UpperWhole(d: seq<int>)
    ensures Upper(d, 0) == Digits(d, 4, |d|)
  {
    UpperValue(d, 0);
  }

  // ----- keys, signing, verification

  /** The first 32 bytes of SHA-512 of the message, which are what is signed. */
  ghost function Digest<G(!new)>(c: Curve<G>, msg: seq<byte>): seq<byte>
    requires |c.sha512(msg)| == 64
  {
    c.sha512(msg)[..32]
  }

  /** SHA-512 of the private signing key with the first half clamped. */
  function ExpandKey<G(!new)>(c: Curve<G>, priv: seq<byte>): seq<byte>
    requires |priv| == 64 && |c.sha512(priv[32..])| == 64
  {
    var h := c.sha512(priv[32..]);
    X25519.Clamp(h[..32]) + h[32..]
  }

  /** The challenge scalar: SHA-512(R, public key, digest) modulo L. */
  ghost function Challenge<G(!new)>(c: Curve<G>, r: seq<byte>, pk: seq<byte>, digest: seq<byte>): int {
    Num(c.sha512(r + pk + digest)) % L
  }

  /** The public key that belongs to a private key: _calcPubED. */
  ghost predicate IsKeyPair<G(!new)>(c: Curve<G>, priv: seq<byte>, pub: seq<byte>)
    requires c.Valid()
  {
    hide c.group.IsAbelian, c.group.Times;
    && |priv| == |pub| == 64
    && pub[32..] == c.pack(c.group.Times(Num(ExpandKey(c, priv)[..32]) % L, c.base))
  }

  /** The nonce scalar: SHA-512(second half of the expanded key, digest) modulo L. */
  ghost function Nonce<G(!new)>(c: Curve<G>, priv: seq<byte>, msg: seq<byte>): int
    requires |priv| == 64 && |c.sha512(priv[32..])| == 64 && |c.sha512(msg)| == 64
  {
    Num(c.sha512(ExpandKey(c, priv)[32..] + Digest(c, msg))) % L
  }

  /** What sign writes: R, s and the digest, with R = k * base and s = h * a + k modulo L. */
  ghost predicate IsSignature<G(!new)>(c: Curve<G>, priv: seq<byte>, pub: seq<byte>, msg: seq<byte>, sig: seq<byte>)
    requires c.Valid() && |priv| == |pub| == 64
  {
    hide c.group.IsAbelian, c.group.Times;
    var a := Num(ExpandKey(c, priv)[..32]) % L;
    var k := Nonce(c, priv, msg);
    && |sig| == 96
    && sig[..32] == c.pack(c.group.Times(k, c.base))
    && sig[64..] == Digest(c, msg)
    && Num(sig[32..64]) == (Challenge(c, sig[..32], pub[32..], sig[64..]) * a + k) % L
  }

  /** The secret scalar is the first half of the hash, with its bits set and cleared as for X25519. */
  lemma SecretScalar<G(!new)>(c: Curve<G>, priv: seq<byte>)
    requires c.Valid() && |priv| == 64
    ensures var h := c.sha512(priv[32..]);
            && |h| == |ExpandKey(c, priv)| == 64 && ExpandKey(c, priv)[32..] == h[32..]
            && Num(h[..32]) >= 0 && Num(ExpandKey(c, priv)[..32]) == Rfc7748.DecodeScalar(Num(h[..32]))
  {
    hide c.group.IsAbelian, c.group.Times, Rfc7748.DecodeScalar, Num;
    var h := c.sha512(priv[32..]);
    X25519.ClampValue(h[..32]);
    var e := X25519.Clamp(h[..32]) + h[32..];
    assert e[..32] == X25519.Clamp(h[..32]) && e[32..] == h[32..];
  }

  /** A signature written out, in terms of the hash, the group and the encoding. */
  lemma SignatureIs<G(!new)>(c: Curve<G>, priv: seq<byte>, pub: seq<byte>, msg: seq<byte>, sig: seq<byte>)
    requires c.Valid() && |priv| == |pub| == 64 && |sig| == 96
    ensures var h, m := c.sha512(priv[32..]), c.sha512(msg)[..32];
            var k := Num(c.sha512(h[32..] + m)) % L;
            Num(h[..32]) >= 0 &&
            (IsSignature(c, priv, pub, msg, sig) <==>
             && sig[..32] == c.pack(c.group.Times(k, c.base)) && sig[64..] == m
             && Num(sig[32..64]) ==
                (Num(c.sha512(sig[..32] + pub[32..] + m)) % L * (Rfc7748.DecodeScalar(Num(h[..32])) % L) + k) % L)
  {
    hide c.group.IsAbelian, c.group.Times, Num, Rfc7748.DecodeScalar;
    SecretScalar(c, priv);
  }

  /** _calcPubED: the signing half of the public key. */
  method CalcPubED<G(!new)>(c: Curve<G>, priv: seq<byte>) returns (pk: seq<byte>)
    requires c.Valid() && |priv| == 64
    ensures var h := c.sha512(priv[32..])[..32];
            |pk| == 32 && Num(h) >= 0 && pk == c.pack(c.group.Times(Rfc7748.DecodeScalar(Num(h)) % L, c.base))
    ensures forall dh: seq<byte> :: |dh| == 32 ==> IsKeyPair(c, priv, dh + pk)
  {
    hide c.Valid, c.group.IsAbelian, c.group.Times, Num, Rfc7748.DecodeScalar;
    SecretScalar(c, priv);
    c.Encoding(c.base, priv[32..]);
    var extsk := ExpandKey(c, priv);
    var scsk := new uint32[32];
    From32Bytes(scsk, extsk[..32]);
    var gepk := ScalarMultBase(c, scsk[..]);
    c.Encoding(gepk, []);
    pk := c.pack(gepk);
    assert forall dh: seq<byte> :: |dh| == 32 ==> (dh + pk)[32..] == pk;
  }

  /** What verify checks. */
  ghost predicate Accepts<G(!new)>(c: Curve<G>, pub: seq<byte>, msg: seq<byte>, sig: seq<byte>)
    requires c.Valid() && |pub| == 64 && |sig| == 96
  {
    hide c.group.IsAbelian, c.group.Times;
    && sig[64..] == Digest(c, msg)
    && c.unpackneg(pub[32..]).Some?
    && var h := Challenge(c, sig[..32], pub[32..], sig[64..]);
       c.pack(Combine(c.group, h, c.unpackneg(pub[32..]).value, Num(sig[32..64]) % L, c.base)) == sig[..32]
  }

  /** Copies R, the public key and the digest into the scratch area, which may be the
      signature buffer itself, and hashes it. */
  method GetHram<G(!new)>(c: Curve<G>, sm: array<byte>, pk: seq<byte>, playground: array<byte>) returns (hram: seq<byte>)
    requires sm.Length == playground.Length == 96 && |pk| == 32
    modifies playground
    ensures playground[..] == old(sm[..32]) + pk + old(sm[64..])
    ensures hram == c.sha512(playground[..])
  {
    for i := 0 to 32
      invariant forall k :: 0 <= k < i ==> playground[k] == old(sm[k])
      invariant forall k :: 0 <= k < 96 ==> sm[k] == old(sm[k])
    {
      playground[i] := sm[i];
    }
    for i := 32 to 64
      invariant forall k :: 0 <= k < 32 ==> playground[k] == old(sm[k])
      invariant forall k :: 32 <= k < i ==> playground[k] == pk[k - 32]
      invariant forall k :: 64 <= k < 96 ==> sm[k] == old(sm[k])
    {
      playground[i] := pk[i - 32];
    }
    for i := 64 to 96
      invariant forall k :: 0 <= k < 32 ==> playground[k] == old(sm[k])
      invariant forall k :: 32 <= k < 64 ==> playground[k] == pk[k - 32]
      invariant forall k :: 64 <= k < i ==> playground[k] == old(sm[k])
      invariant forall k :: 64 <= k < 96 ==> sm[k] == old(sm[k])
    {
      playground[i] := sm[i];
    }
    assert playground[..] == old(sm[..32]) + pk + old(sm[64..]);
    hram := c.sha512(playground[..]);
  }

  /** Writes bytes into the signature at an offset. */
  method Put(sig: array<byte>, at: nat, data: seq<byte>)
    requires at + |data| <= sig.Length
    modifies sig
    ensures sig[..] == old(sig[..at]) + data + old(sig[at + |data|..])
  {
    for i := 0 to |data|
      invariant forall k :: 0 <= k < i ==> sig[at + k] == data[k]
      invariant forall k :: 0 <= k < sig.Length && !(at <= k < at + i) ==> sig[k] == old(sig[k])
    {
      sig[at + i] := data[i];
    }
    forall k | at <= k < at + |data| ensures sig[k] == data[k - at] {
      assert sig[at + (k - at)] == data[k - at];
    }
  }

  method Sign<G(!new)>(c: Curve<G>, priv: seq<byte>, pub: seq<byte>, msg: seq<byte>, sig: array<byte>)
    requires c.Valid() && |priv| == |pub| == 64 && sig.Length == 96
    modifies sig
    ensures IsSignature(c, priv, pub, msg, sig[..])
    ensures var h, m := c.sha512(priv[32..]), c.sha512(msg)[..32];
            var k := Num(c.sha512(h[32..] + m)) % L;
            && Num(h[..32]) >= 0
            && sig[..32] == c.pack(c.group.Times(k, c.base)) && sig[64..] == m
            && Num(sig[32..64]) ==
               (Num(c.sha512(sig[..32] + pub[32..] + m)) % L * (Rfc7748.DecodeScalar(Num(h[..32])) % L) + k) % L
  {
    hide c.Valid, c.group.IsAbelian, c.group.Times, Num, Rfc7748.DecodeScalar, IsSignature, ExpandKey;
    SecretScalar(c, priv);
    c.Encoding(c.base, msg);
    var digest := c.sha512(msg)[..32];
    c.Encoding(c.base, priv[32..]);
    var extsk := ExpandKey(c, priv);
    Put(sig, 32, extsk[32..]);
    Put(sig, 64, digest);
    assert sig[32..96] == extsk[32..] + digest;
    c.Encoding(c.base, sig[32..96]);
    var hmg := c.sha512(sig[32..96]);
    var sck := new uint32[32];
    From64Bytes(sck, hmg);
    var ger := ScalarMultBase(c, sck[..]);
    c.Encoding(ger, msg);
    var r := c.pack(ger);
    Put(sig, 0, r);
    assert sig[..32] == r && sig[64..] == digest;
    var hram := GetHram(c, sig, pub[32..], sig);
    c.Encoding(ger, r + pub[32..] + digest);
    assert sig[..32] == r && sig[64..] == digest;
    var s := SignatureScalar(hram, extsk[..32], sck[..]);
    Put(sig, 32, s);
    assert sig[..32] == r && sig[64..] == digest && sig[32..64] == s;
    SignatureIs(c, priv, pub, msg, sig[..]);
  }

  /** h * a + k modulo L, as 32 bytes. */
  method SignatureScalar(hram: seq<byte>, secret: seq<byte>, sck: seq<uint32>) returns (s: seq<byte>)
    requires |hram| == 64 && |secret| == 32 && IsScalar(sck)
    ensures |s| == 32 && Num(s) == (Num(hram) % L * (Num(secret) % L) + Num(sck)) % L
  {
    hide Num;
    var h := new uint32[32];
    From64Bytes(h, hram);
    var a := new uint32[32];
    From32Bytes(a, secret);
    var scs := new uint32[32];
    MulScalars(scs, h[..], a[..]);
    var sum := new uint32[32];
    AddScalars(sum, scs[..], sck);
    ModOfSum(Num(h[..]) * Num(a[..]), Num(sck));
    s := ScalarBytes(sum[..]);
  }

  lemma ModOfSum(x: int, y: int)
    ensures (x % L + y) % L == (x + y) % L
  {
  }

  /** sc25519_to32bytes */
  method ScalarBytes(x: seq<uint32>) returns (s: seq<byte>)
    requires IsScalar(x)
    ensures |s| == 32 && Num(s) == Num(x)
  {
    hide Num;
    s := seq(32, i requires 0 <= i < 32 && Normal(x, 32) && |x| == 32 => x[i]);
    assert s == x;
  }

  method Verify<G(!new)>(c: Curve<G>, pub: seq<byte>, msg: seq<byte>, sig: array<byte>) returns (ok: bool)
    requires c.Valid() && |pub| == 64 && sig.Length == 96
    ensures ok <==> Accepts(c, pub, msg, sig[..])
    ensures ok <==>
            && sig[64..] == c.sha512(msg)[..32] && c.unpackneg(pub[32..]).Some?
            && sig[..32] ==
               c.pack(c.group.add(c.group.Times(Num(c.sha512(sig[..32] + pub[32..] + sig[64..])) % L,
                                                c.unpackneg(pub[32..]).value),
                                  c.group.Times(Num(sig[32..64]) % L, c.base)))
  {
    hide c.Valid, c.group.IsAbelian, c.group.Times, Num;
    c.Laws();
    c.Encoding(c.base, msg);
    var digest := c.sha512(msg);
    if sig[64..] != digest[..32] {
      return false;
    }
    var get1 := c.unpackneg(pub[32..]);
    if get1.None? {
      return false;
    }
    var m := new byte[96];
    var hram := GetHram(c, sig, pub[32..], m);
    c.Encoding(c.base, m[..]);
    var schram := new uint32[32];
    From64Bytes(schram, hram);
    var scs := new uint32[32];
    From32Bytes(scs, sig[32..64]);
    var get2 := DoubleScalarMult(c.group, get1.value, schram[..], c.base, scs[..]);
    var t2 := c.pack(get2);
    ok := sig[..32] == t2;
  }

  /** Every signature made with a key pair is accepted under its public key. */
  lemma SignedIsAccepted<G(!new)>(c: Curve<G>, priv: seq<byte>, pub: seq<byte>, msg: seq<byte>, sig: seq<byte>)
    requires c.Valid() && IsKeyPair(c, priv, pub) && IsSignature(c, priv, pub, msg, sig)
    ensures Accepts(c, pub, msg, sig)
  {
    hide c.Valid, c.group.IsAbelian, c.group.Times, Num, Combine;
    c.Encoding(c.base, priv[32..]);
    var a := Num(ExpandKey(c, priv)[..32]) % L;
    c.Encoding(c.group.Times(a, c.base), msg);
    var k := Nonce(c, priv, msg);
    var h := Challenge(c, sig[..32], pub[32..], sig[64..]);
    MulLe(0, h, a);
    VerificationEquation(c, a, h, h * a, k);
  }

  /** h * (-(a * base)) + (h * a + k mod L) * base = k * base */
  lemma VerificationEquation<G(!new)>(c: Curve<G>, a: nat, h: nat, x: nat, k: nat)
    requires c.Valid() && x == h * a
    ensures Combine(c.group, h, c.group.neg(c.group.Times(a, c.base)), (x + k) % L, c.base) == c.group.Times(k, c.base)
  {
    hide c.Valid, c.group.IsAbelian, c.group.Times;
    c.Laws();
    c.group.TimesCancel(h, a, x, k, L, c.base);
  }

  /** Only S modulo L matters to verification, where section 5.1.7 of RFC 8032 also demands S < L. */
  lemma OnlySModuloL<G(!new)>(c: Curve<G>, pub: seq<byte>, msg: seq<byte>, sig: seq<byte>, other: seq<byte>)
    requires c.Valid() && |pub| == 64 && |sig| == |other| == 96
    requires sig[..32] == other[..32] && sig[64..] == other[64..] && Num(sig[32..64]) % L == Num(other[32..64]) % L
    ensures Accepts(c, pub, msg, sig) <==> Accepts(c, pub, msg, other)
  {
    hide c.Valid, c.group.IsAbelian, c.group.Times, Num, Combine;
  }

  /** So an accepted signature with room for another L in S is accepted in a second form. */
  lemma SecondForm<G(!new)>(c: Curve<G>, pub: seq<byte>, msg: seq<byte>, sig: seq<byte>) returns (other: seq<byte>)
    requires c.Valid() && |pub| == 64 && |sig| == 96 && Accepts(c, pub, msg, sig)
    requires 0 <= Num(sig[32..64]) && Num(sig[32..64]) + L < Pow256(32)
    ensures |other| == 96 && other != sig && Num(other[32..64]) == Num(sig[32..64]) + L
    ensures Accepts(c, pub, msg, other)
  {
    hide c.Valid, c.group.IsAbelian, c.group.Times, Num, Combine, Pow256, LimbsOf, Accepts;
    var s := Num(sig[32..64]);
    LimbsOfNumber(s + L, 32);
    other := sig[..32] + LimbsOf(s + L, 32) + sig[64..];
    assert other[..32] == sig[..32] && other[32..64] == LimbsOf(s + L, 32) && other[64..] == sig[64..];
    QuotientUnique(s + L, s / L + 1, s % L, L);
    OnlySModuloL(c, pub, msg, sig, other);
  }
}
