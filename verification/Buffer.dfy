/** A byte buffer of fixed capacity with bounds-checked big-endian integers. */
module Buffer {
  import opened Common
  import opened Limbs

  function BigEndian(v: nat, n: nat): (s: seq<byte>)
    ensures |s| == n
  {
    if n == 0 then [] else BigEndian(v / 256, n - 1) + [v % 256]
  }

  function FromBigEndian(s: seq<byte>): nat {
    if s == [] then 0 else FromBigEndian(s[..|s| - 1]) * 256 + s[|s| - 1]
  }

  /** Every value that fits comes back. */
  lemma {:induction false} FromBigEndianInverts(v: nat, n: nat)
    requires v < Pow256(n)
    ensures FromBigEndian(BigEndian(v, n)) == v
  {
    if n > 0 {
      FromBigEndianInverts(v / 256, n - 1);
      var s := BigEndian(v, n);
      assert s[..|s| - 1] == BigEndian(v / 256, n - 1);
    }
  }

  /** Byte i of the encoding is what shifting and masking gives. */
  lemma {:induction false} BigEndianAt(v: nat, n: nat, i: nat)
    requires i < n
    ensures BigEndian(v, n)[i] == v / Pow256(n - 1 - i) % 256
  {
    if i < n - 1 {
      BigEndianAt(v / 256, n - 1, i);
      DivTwice(v, 256, Pow256(n - 2 - i));
    }
  }

  class Buffer {
    const b: array<byte>
    var l: nat

    ghost predicate Valid()
      reads this
    {
      l <= b.Length
    }

    ghost function Contents(): seq<byte>
      requires Valid()
      reads this, b
    {
      b[..l]
    }

    constructor (capacity: nat)
      ensures Valid() && Contents() == [] && fresh(b) && b.Length == capacity
    {
      b := new byte[capacity];
      l := 0;
    }

    /** Appends an integer of n bytes, or nothing if it does not fit. */
    method Append(v: nat, n: nat) returns (ok: bool)
      requires Valid()
      modifies this, b
      ensures Valid()
      ensures ok <==> old(l) + n <= b.Length
      ensures Contents() == if ok then old(Contents()) + BigEndian(v, n) else old(Contents())
    {
      if l + n > b.Length {
        return false;
      }
      for x := 0 to n
        invariant l == old(l) && b[..l] == old(b[..l])
        invariant b[l..l + x] == BigEndian(v, n)[..x]
      {
        BigEndianAt(v, n, x);
        b[l + x] := v / Pow256(n - 1 - x) % 256;
      }
      l := l + n;
      ok := true;
      assert b[..l] == b[..old(l)] + b[old(l)..l];
    }

    method AppendBytes(data: seq<byte>) returns (ok: bool)
      requires Valid()
      modifies this, b
      ensures Valid()
      ensures ok <==> old(l) + |data| <= b.Length
      ensures Contents() == if ok then old(Contents()) + data else old(Contents())
    {
      if l + |data| > b.Length {
        return false;
      }
      for x := 0 to |data|
        invariant l == old(l) && b[..l] == old(b[..l]) && b[l..l + x] == data[..x]
      {
        b[l + x] := data[x];
      }
      l := l + |data|;
      ok := true;
      assert b[..l] == b[..old(l)] + b[old(l)..l];
    }

    /** Reads an integer of n bytes at position i, if it lies within the contents. */
    method At(i: nat, n: nat) returns (v: Option<nat>)
      requires Valid()
      ensures v == Read(Contents(), i, n)
    {
      if i + n > l {
        return None;
      }
      var x: nat := 0;
      var value: nat := 0;
      while x < n
        invariant x <= n && value == FromBigEndian(b[i..i + x])
      {
        assert b[i..i + x + 1][..x] == b[i..i + x];
        value := value * 256 + b[i + x];
        x := x + 1;
      }
      assert Contents()[i..i + n] == b[i..i + n];
      v := Some(value);
    }
  }

  function Read(s: seq<byte>, i: nat, n: nat): Option<nat> {
    if i + n > |s| then None else Some(FromBigEndian(s[i..i + n]))
  }

  /** Reading where an integer was appended gives it back, whatever surrounds it. */
  lemma ReadBack(s: seq<byte>, i: nat, v: nat, n: nat)
    requires v < Pow256(n) && i + n <= |s| && s[i..i + n] == BigEndian(v, n)
    ensures Read(s, i, n) == Some(v)
  {
    FromBigEndianInverts(v, n);
  }

  // ----- parts of a longer sequence

  /** part stands at position p of s. */
  predicate At(s: seq<byte>, p: nat, part: seq<byte>) {
    p + |part| <= |s| && s[p..p + |part|] == part
  }

  lemma AtSplit(s: seq<byte>, p: nat, a: seq<byte>, b: seq<byte>)
    requires At(s, p, a + b)
    ensures At(s, p, a) && At(s, p + |a|, b)
  {
    var ab := s[p..p + |a + b|];
    assert s[p..p + |a|] == ab[..|a|];
    assert s[p + |a|..p + |a| + |b|] == ab[|a|..];
  }

  /** A big-endian integer and what follows it. */
  lemma ReadHead(s: seq<byte>, p: nat, v: nat, n: nat, rest: seq<byte>)
    requires At(s, p, BigEndian(v, n) + rest) && v < Pow256(n)
    ensures Read(s, p, n) == Some(v) && At(s, p + n, rest)
  {
    AtSplit(s, p, BigEndian(v, n), rest);
    ReadBack(s, p, v, n);
  }

  lemma Bytes(s: seq<byte>, p: nat, part: seq<byte>)
    requires At(s, p, part)
    ensures p + |part| <= |s| && forall i :: 0 <= i < |part| ==> s[p + i] == part[i]
  {
    forall i | 0 <= i < |part| ensures s[p + i] == part[i] {
      assert s[p..p + |part|][i] == s[p + i];
    }
  }

  lemma Slice(s: seq<byte>, p: nat, part: seq<byte>)
    requires At(s, p, part)
    ensures p + |part| <= |s| && s[p..p + |part|] == part
  {
  }
}
