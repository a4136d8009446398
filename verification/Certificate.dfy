/** Certificates of membership: sorted qualifiers, and the agreement test between two certificates. */
module Certificate {
  import opened Common

  const MAX_DELTA: uint64 := 0xffff_ffff_ffff_ffff
  const MAX_QUALIFIERS := 8
  const TIMESTAMP: uint64 := 0
  const NETWORK_ID: uint64 := 1
  const ISSUED_TO: uint64 := 2

  datatype Qualifier = Qualifier(id: uint64, value: uint64, maxDelta: uint64)

  /** The qualifier slots of a certificate, of which the first count are in use. */
  datatype Certificate = Certificate(q: seq<Qualifier>, count: nat)

  predicate WellFormed(c: Certificate) {
    |c.q| == MAX_QUALIFIERS && c.count <= MAX_QUALIFIERS
  }

  /** Ordered by id, as setQualifier's sort and the decoder's check leave it; the decoder lets ids repeat. */
  predicate Sorted(c: Certificate) {
    WellFormed(c) && forall i, j :: 0 <= i < j < c.count ==> c.q[i].id <= c.q[j].id
  }

  predicate Increasing(c: Certificate) {
    WellFormed(c) && forall i, j :: 0 <= i < j < c.count ==> c.q[i].id < c.q[j].id
  }

  predicate Within(a: int, b: int, delta: int) {
    -delta <= a - b <= delta
  }

  predicate Occurs(id: uint64, c: Certificate)
    requires WellFormed(c)
  {
    exists j :: 0 <= j < c.count && c.q[j].id == id
  }

  predicate Matched(m: Qualifier, other: Certificate)
    requires WellFormed(other)
  {
    exists j :: 0 <= j < other.count && other.q[j].id == m.id && Within(m.value, other.q[j].value, m.maxDelta)
  }

  /** What agreement promises: each of mine is in other, and its value there is within my delta. */
  predicate Documented(mine: Certificate, other: Certificate)
    requires WellFormed(mine) && WellFormed(other)
  {
    && mine.count > 0 && other.count > 0
    && forall i :: 0 <= i < mine.count ==> Matched(mine.q[i], other)
  }

  /** What the code decides: presence by id, but the value compared is the one in other's slot of the same number. */
  predicate Agrees(mine: Certificate, other: Certificate)
    requires WellFormed(mine) && WellFormed(other)
  {
    && mine.count > 0 && other.count > 0
    && (forall i :: 0 <= i < mine.count ==> Occurs(mine.q[i].id, other))
    && (forall i :: 0 <= i < mine.count ==> Within(mine.q[i].value, other.q[i].value, mine.q[i].maxDelta))
  }

  /** Advances to the next qualifier with the id. */
  method Seek(other: Certificate, start: nat, id: uint64) returns (j: nat)
    requires WellFormed(other) && start <= other.count
    ensures start <= j <= other.count
    ensures forall k :: start <= k < j ==> other.q[k].id != id
    ensures j < other.count ==> other.q[j].id == id
  {
    j := start;
    while j < other.count && other.q[j].id != id
      invariant start <= j <= other.count
      invariant forall k :: start <= k < j ==> other.q[k].id != id
    {
      j := j + 1;
    }
  }

  /** The two-index walk of agreesWith decides Agrees for all sorted certificates. */
  method AgreementWalk(mine: Certificate, other: Certificate) returns (r: bool)
    requires Sorted(mine) && Sorted(other)
    ensures r <==> Agrees(mine, other)
  {
    assert WellFormed(mine) && WellFormed(other);
    hide Within, Occurs, Sorted, Below, Agrees, AgreeUpTo;
    AgreeStep(mine, other);
    var myIndex, otherIndex := 0, 0;
    NoneBelow(other);
    if mine.count == 0 || other.count == 0 {
      return false;
    }
    while myIndex < mine.count
      invariant 0 <= myIndex <= mine.count && 0 <= otherIndex < other.count
      invariant AgreeUpTo(mine, other, myIndex)
      invariant myIndex < mine.count ==> Below(other, otherIndex, mine.q[myIndex].id)
    {
      var mineNow := mine.q[myIndex];
      otherIndex := Seek(other, otherIndex, mineNow.id);
      Sought(other, otherIndex, mineNow.id);
      if otherIndex >= other.count {
        assert !AgreeUpTo(mine, other, myIndex + 1);
        return false;
      }
      var a, b := mineNow.value, other.q[myIndex].value;
      WithinIsDistance(a, b, mineNow.maxDelta);
      assert AgreeUpTo(mine, other, myIndex + 1) <==> Within(a, b, mineNow.maxDelta);
      if (if a >= b then a - b else b - a) > mineNow.maxDelta {
        return false;
      }
      myIndex := myIndex + 1;
      if myIndex < mine.count {
        StillBelow(mine, other, myIndex, otherIndex);
      }
    }
    r := true;
  }

  /** The first n qualifiers all have smaller ids. */
  predicate Below(other: Certificate, n: nat, id: uint64)
    requires WellFormed(other)
  {
    n <= other.count && forall j :: 0 <= j < n ==> other.q[j].id < id
  }

  lemma NoneBelow(other: Certificate)
    requires WellFormed(other)
    ensures forall id: uint64 :: Below(other, 0, id)
  {
  }

  predicate AgreeUpTo(mine: Certificate, other: Certificate, n: nat)
    requires WellFormed(mine) && WellFormed(other) && n <= mine.count
  {
    forall i :: 0 <= i < n ==>
      Occurs(mine.q[i].id, other) && Within(mine.q[i].value, other.q[i].value, mine.q[i].maxDelta)
  }

  lemma AgreeStep(mine: Certificate, other: Certificate)
    requires WellFormed(mine) && WellFormed(other)
    ensures AgreeUpTo(mine, other, 0)
    ensures Agrees(mine, other) <==> mine.count > 0 && other.count > 0 && AgreeUpTo(mine, other, mine.count)
    ensures forall n :: 0 <= n < mine.count ==>
              (AgreeUpTo(mine, other, n + 1) <==>
               && AgreeUpTo(mine, other, n) && Occurs(mine.q[n].id, other)
               && Within(mine.q[n].value, other.q[n].value, mine.q[n].maxDelta))
    ensures forall n :: 0 <= n <= mine.count && !AgreeUpTo(mine, other, n) ==> !Agrees(mine, other)
  {
    hide Within, Occurs;
  }

  lemma Sought(other: Certificate, j: nat, id: uint64)
    requires Sorted(other) && j <= other.count
    requires forall k :: 0 <= k < j ==> other.q[k].id != id
    requires j < other.count ==> other.q[j].id == id
    ensures Occurs(id, other) <==> j < other.count
    ensures j < other.count ==> Below(other, j, id)
  {
  }

  lemma StillBelow(mine: Certificate, other: Certificate, i: nat, j: nat)
    requires Sorted(mine) && Sorted(other) && 0 < i < mine.count && Below(other, j, mine.q[i - 1].id)
    ensures Below(other, j, mine.q[i].id)
  {
    assert mine.q[i - 1].id <= mine.q[i].id;
  }

  lemma WithinIsDistance(a: int, b: int, delta: int)
    ensures Within(a, b, delta) <==> (if a >= b then a - b else b - a) <= delta
  {
  }

  // ----- when the code meets its documentation

  /** The same ids and deltas, with other values. */
  predicate SameShape(c: Certificate, d: Certificate) {
    && WellFormed(c) && WellFormed(d) && c.count == d.count
    && forall i :: 0 <= i < MAX_QUALIFIERS ==> c.q[i].id == d.q[i].id && c.q[i].maxDelta == d.q[i].maxDelta
  }

  /** The id stands in slot k and in no other. */
  predicate OnlyAt(other: Certificate, id: uint64, k: nat)
    requires WellFormed(other)
  {
    k < other.count && other.q[k].id == id && forall j :: 0 <= j < other.count && j != k ==> other.q[j].id != id
  }

  /** Each of mine with a real limit stands in the same slot of other, and only there. */
  predicate Aligned(mine: Certificate, other: Certificate)
    requires WellFormed(mine) && WellFormed(other)
  {
    forall i :: 0 <= i < mine.count && mine.q[i].maxDelta < MAX_DELTA ==> OnlyAt(other, mine.q[i].id, i)
  }

  predicate SomeMissing(mine: Certificate, other: Certificate)
    requires WellFormed(mine) && WellFormed(other)
  {
    mine.count == 0 || other.count == 0 || exists i :: 0 <= i < mine.count && !Occurs(mine.q[i].id, other)
  }

  lemma MissingDisagrees(mine: Certificate, other: Certificate)
    requires WellFormed(mine) && WellFormed(other) && SomeMissing(mine, other)
    ensures !Agrees(mine, other) && !Documented(mine, other)
  {
    hide Within;
    if mine.count > 0 && other.count > 0 {
      var i :| 0 <= i < mine.count && !Occurs(mine.q[i].id, other);
      assert forall j :: 0 <= j < other.count ==> other.q[j].id != mine.q[i].id;
    }
  }

  lemma AlignedIsDocumented(mine: Certificate, other: Certificate)
    requires WellFormed(mine) && WellFormed(other)
    requires !SomeMissing(mine, other) && Aligned(mine, other)
    ensures Agrees(mine, other) <==> Documented(mine, other)
  {
    hide Within, Matched, Occurs, Aligned;
    assert forall i :: 0 <= i < mine.count ==> Occurs(mine.q[i].id, other);
    forall i | 0 <= i < mine.count
      ensures Matched(mine.q[i], other) <==> Within(mine.q[i].value, other.q[i].value, mine.q[i].maxDelta)
    {
      AlignedAt(mine, other, i);
    }
  }

  lemma AlignedAt(mine: Certificate, other: Certificate, i: nat)
    requires WellFormed(mine) && WellFormed(other) && Aligned(mine, other)
    requires i < mine.count && Occurs(mine.q[i].id, other)
    ensures Matched(mine.q[i], other) <==> Within(mine.q[i].value, other.q[i].value, mine.q[i].maxDelta)
  {
    hide Within, OnlyAt;
    if mine.q[i].maxDelta == MAX_DELTA {
      var j :| 0 <= j < other.count && other.q[j].id == mine.q[i].id;
      AlwaysWithin(mine.q[i].value, other.q[i].value);
      AlwaysWithin(mine.q[i].value, other.q[j].value);
    } else {
      MatchedAt(mine.q[i], other, i);
    }
  }

  lemma MatchedAt(m: Qualifier, other: Certificate, j: nat)
    requires WellFormed(other) && OnlyAt(other, m.id, j)
    ensures Matched(m, other) <==> Within(m.value, other.q[j].value, m.maxDelta)
  {
    hide Within;
  }

  lemma AlwaysWithin(a: uint64, b: uint64)
    ensures Within(a, b, MAX_DELTA)
  {
  }

  /** Values under which misaligned certificates meet the documentation and the code still refuses. */
  lemma MisalignedDiffers(mine: Certificate, other: Certificate, k: nat) returns (c: Certificate, d: Certificate)
    requires WellFormed(mine) && WellFormed(other) && !SomeMissing(mine, other)
    requires k < mine.count && mine.q[k].maxDelta < MAX_DELTA && !OnlyAt(other, mine.q[k].id, k)
    ensures SameShape(mine, c) && SameShape(other, d)
    ensures Documented(c, d) && !Agrees(c, d)
  {
    var x := mine.q[k].maxDelta + 1;
    c := Certificate(seq(MAX_QUALIFIERS, i requires 0 <= i < MAX_QUALIFIERS =>
      mine.q[i].(value := if OnlyAt(other, mine.q[i].id, k) then x else 0)), mine.count);
    d := Certificate(seq(MAX_QUALIFIERS, i requires 0 <= i < MAX_QUALIFIERS =>
      other.q[i].(value := if i == k then x else 0)), other.count);
    forall i | 0 <= i < c.count ensures Matched(c.q[i], d) {
      assert Occurs(mine.q[i].id, other);
      var j := Elsewhere(other, mine.q[i].id, k);
      assert d.q[j].id == c.q[i].id && d.q[j].value == c.q[i].value;
    }
    assert !Within(c.q[k].value, d.q[k].value, c.q[k].maxDelta);
  }

  /** An id that occurs stands in slot k alone or in another slot. */
  lemma Elsewhere(other: Certificate, id: uint64, k: nat) returns (j: nat)
    requires WellFormed(other) && Occurs(id, other)
    ensures j < other.count && other.q[j].id == id && (j == k <==> OnlyAt(other, id, k))
  {
    if OnlyAt(other, id, k) {
      j := k;
    } else {
      j :| 0 <= j < other.count && other.q[j].id == id;
      if j == k {
        j :| 0 <= j < other.count && other.q[j].id == id && j != k;
      }
    }
  }

  /** agreesWith does what it documents, whatever the values, exactly when a qualifier is missing or all are aligned. */
  lemma DocumentedExactly(mine: Certificate, other: Certificate)
    requires WellFormed(mine) && WellFormed(other)
    ensures (forall c, d :: SameShape(mine, c) && SameShape(other, d) ==> (Agrees(c, d) <==> Documented(c, d))) <==>
            (SomeMissing(mine, other) || Aligned(mine, other))
  {
    hide Agrees, Documented;
    if SomeMissing(mine, other) || Aligned(mine, other) {
      forall c, d | SameShape(mine, c) && SameShape(other, d) ensures Agrees(c, d) <==> Documented(c, d) {
        ShapeDecides(mine, other, c, d);
        if SomeMissing(c, d) {
          MissingDisagrees(c, d);
        } else {
          AlignedIsDocumented(c, d);
        }
      }
    } else {
      var k :| 0 <= k < mine.count && mine.q[k].maxDelta < MAX_DELTA && !OnlyAt(other, mine.q[k].id, k);
      var c, d := MisalignedDiffers(mine, other, k);
    }
  }

  lemma ShapeDecides(mine: Certificate, other: Certificate, c: Certificate, d: Certificate)
    requires SameShape(mine, c) && SameShape(other, d)
    ensures SomeMissing(c, d) <==> SomeMissing(mine, other)
    ensures Aligned(c, d) <==> Aligned(mine, other)
  {
    hide Occurs, OnlyAt;
    forall i | 0 <= i < mine.count
      ensures Occurs(mine.q[i].id, other) <==> Occurs(c.q[i].id, d)
      ensures OnlyAt(other, mine.q[i].id, i) <==> OnlyAt(d, c.q[i].id, i)
    {
      SamePlaces(other, d, mine.q[i].id, i);
    }
  }

  lemma SamePlaces(other: Certificate, d: Certificate, id: uint64, k: nat)
    requires SameShape(other, d)
    ensures Occurs(id, other) <==> Occurs(id, d)
    ensures OnlyAt(other, id, k) <==> OnlyAt(d, id, k)
  {
    if Occurs(id, d) {
      var j :| 0 <= j < d.count && d.q[j].id == id;
      assert other.q[j].id == id;
    }
    if Occurs(id, other) {
      var j :| 0 <= j < other.count && other.q[j].id == id;
      assert d.q[j].id == id;
    }
    assert forall j :: 0 <= j < MAX_QUALIFIERS ==> other.q[j].id == d.q[j].id;
  }

  // ----- certificates the controller issues

  const EMPTY := Qualifier(0, 0, 0)

  /** The certificate built from the fields common to all networks. */
  function Issued(timestamp: uint64, maxDelta: uint64, network: uint64, to: uint64): (c: Certificate)
    ensures Increasing(c)
  {
    Certificate([Qualifier(TIMESTAMP, timestamp, maxDelta), Qualifier(NETWORK_ID, network, 0),
                 Qualifier(ISSUED_TO, to, MAX_DELTA), EMPTY, EMPTY, EMPTY, EMPTY, EMPTY], 3)
  }

  /** What an issued certificate says: when, where and to whom. */
  lemma IssuedSays(timestamp: uint64, maxDelta: uint64, network: uint64, to: uint64)
    ensures Issued(timestamp, maxDelta, network, to).q[..3] ==
            [Qualifier(0, timestamp, maxDelta), Qualifier(1, network, 0), Qualifier(2, to, 0xffff_ffff_ffff_ffff)]
    ensures Issued(timestamp, maxDelta, network, to).count == 3
  {
  }

  /** The value under an id, 0 without it: timestamp, networkId and issuedTo look theirs up in this way. */
  method ValueOf(c: Certificate, id: uint64) returns (v: uint64)
    requires WellFormed(c)
    ensures (forall i :: 0 <= i < c.count ==> c.q[i].id != id) ==> v == 0
    ensures forall i :: 0 <= i < c.count && c.q[i].id == id && (forall j :: 0 <= j < i ==> c.q[j].id != id) ==>
              v == c.q[i].value
  {
    for i := 0 to c.count
      invariant forall j :: 0 <= j < i ==> c.q[j].id != id
    {
      if c.q[i].id == id {
        return c.q[i].value;
      }
    }
    v := 0;
  }

  /** Two issued certificates agree when the networks are the same and the timestamps close, whoever holds them. */
  lemma IssuedAgree(t: uint64, delta: uint64, n: uint64, a: uint64, t': uint64, delta': uint64, n': uint64, a': uint64)
    ensures var mine, other := Issued(t, delta, n, a), Issued(t', delta', n', a');
            && (Agrees(mine, other) <==> Documented(mine, other))
            && (Agrees(mine, other) <==> n == n' && Within(t, t', delta))
  {
    var mine, other := Issued(t, delta, n, a), Issued(t', delta', n', a');
    forall i | 0 <= i < 3 ensures OnlyAt(other, mine.q[i].id, i) && Occurs(mine.q[i].id, other) {
      assert i == 0 || i == 1 || i == 2;
    }
    assert !SomeMissing(mine, other) && Aligned(mine, other);
    AlignedIsDocumented(mine, other);
    AlwaysWithin(a, a');
    assert Within(mine.q[0].value, other.q[0].value, mine.q[0].maxDelta) <==> Within(t, t', delta);
    assert Within(mine.q[1].value, other.q[1].value, mine.q[1].maxDelta) <==> n == n';
    assert Within(mine.q[2].value, other.q[2].value, mine.q[2].maxDelta);
  }

  /** A qualifier that only other has shifts its slots, and the code compares the wrong values. */
  lemma ExtraQualifierMisleads()
    ensures var mine := Certificate([Qualifier(0, 1000, 60), Qualifier(5, 1, 0)] + seq(6, _ => EMPTY), 2);
            var q := [Qualifier(0, 1010, 60), Qualifier(3, 9, 0), Qualifier(5, 1, 0)];
            var other := Certificate(q + seq(5, _ => EMPTY), 3);
            Increasing(mine) && Increasing(other) && Documented(mine, other) && !Agrees(mine, other)
  {
    var mine := Certificate([Qualifier(0, 1000, 60), Qualifier(5, 1, 0)] + seq(6, _ => EMPTY), 2);
    var other := Certificate([Qualifier(0, 1010, 60), Qualifier(3, 9, 0), Qualifier(5, 1, 0)] + seq(5, _ => EMPTY), 3);
    MatchedAt(mine.q[0], other, 0);
    MatchedAt(mine.q[1], other, 2);
    assert !Within(mine.q[1].value, other.q[1].value, mine.q[1].maxDelta);
  }

  // ----- building a certificate

  predicate Ascending(q: seq<Qualifier>) {
    forall i, j :: 0 <= i < j < |q| ==> q[i].id < q[j].id
  }

  class CertificateOfMembership {
    /** The qualifiers in use. */
    var q: seq<Qualifier>
    /** The address of the signer, 0 if unsigned. */
    var signedBy: nat

    ghost predicate Valid()
      reads this
    {
      |q| <= MAX_QUALIFIERS && Ascending(q)
    }

    constructor ()
      ensures Valid() && q == [] && signedBy == 0
    {
      q, signedBy := [], 0;
    }

    /** Replaces the qualifier with the id, or adds it in its sorted place if there is room. */
    method SetQualifier(id: uint64, value: uint64, maxDelta: uint64)
      requires Valid()
      modifies this
      ensures Valid() && signedBy == 0
      ensures forall x :: x in q <==>
                if x.id != id then x in old(q)
                else x == Qualifier(id, value, maxDelta) && (|old(q)| < MAX_QUALIFIERS || HasId(old(q), id))
    {
      signedBy := 0;
      var x := Qualifier(id, value, maxDelta);
      var i := 0;
      while i < |q| && q[i].id != id
        invariant 0 <= i <= |q| && q == old(q) && forall j :: 0 <= j < i ==> q[j].id != id
      {
        i := i + 1;
      }
      if i < |q| {
        assert HasId(q, id) by { assert q[i] in q; }
        Replaced(q, i, x);
        q := q[i := x];
      } else {
        assert !HasId(q, id);
        if |q| < MAX_QUALIFIERS {
          var p := 0;
          while p < |q| && q[p].id < id
            invariant 0 <= p <= |q| && q == old(q) && forall j :: 0 <= j < p ==> q[j].id < id
          {
            p := p + 1;
          }
          Inserted(q, p, x);
          q := q[..p] + [x] + q[p..];
        }
      }
    }

    /** The agreement test; documented behaviour as soon as other starts with the same ids. */
    method AgreesWith(other: CertificateOfMembership) returns (r: bool)
      requires Valid() && other.Valid()
      ensures r <==> Agrees(Slots(q), Slots(other.q))
      ensures SameIds(q, other.q) ==> (r <==> Documented(Slots(q), Slots(other.q)))
      ensures SameIds(q, other.q) ==>
                (r <==> q != [] && forall i :: 0 <= i < |q| ==> Within(q[i].value, other.q[i].value, q[i].maxDelta))
    {
      hide Agrees, Documented;
      SlotsSorted(q);
      SlotsSorted(other.q);
      if SameIds(q, other.q) {
        SameIdsDocumented(q, other.q);
      }
      r := AgreementWalk(Slots(q), Slots(other.q));
    }
  }

  /** The slots of a certificate, the unused ones empty. */
  function Slots(q: seq<Qualifier>): (c: Certificate)
    requires |q| <= MAX_QUALIFIERS
    ensures WellFormed(c)
  {
    Certificate(q + seq(MAX_QUALIFIERS - |q|, _ => EMPTY), |q|)
  }

  lemma SlotsSorted(q: seq<Qualifier>)
    requires |q| <= MAX_QUALIFIERS && Ascending(q)
    ensures Sorted(Slots(q))
  {
  }

  /** The other certificate has the same ids first. */
  predicate SameIds(q: seq<Qualifier>, other: seq<Qualifier>) {
    |q| <= |other| && forall i :: 0 <= i < |q| ==> q[i].id == other[i].id
  }

  /** Certificates built in this way that share their ids agree as documented. */
  lemma SameIdsDocumented(q: seq<Qualifier>, other: seq<Qualifier>)
    requires |q| <= MAX_QUALIFIERS && |other| <= MAX_QUALIFIERS && Ascending(other) && SameIds(q, other)
    ensures Agrees(Slots(q), Slots(other)) <==> Documented(Slots(q), Slots(other))
    ensures Agrees(Slots(q), Slots(other)) <==>
            q != [] && forall i :: 0 <= i < |q| ==> Within(q[i].value, other[i].value, q[i].maxDelta)
  {
    hide Within, Documented;
    var c, d := Slots(q), Slots(other);
    forall i | 0 <= i < |q| ensures OnlyAt(d, c.q[i].id, i) && Occurs(c.q[i].id, d) {
      assert d.q[i].id == c.q[i].id;
    }
    assert Aligned(c, d);
    assert forall i :: 0 <= i < |q| ==> c.q[i] == q[i] && d.q[i] == other[i];
    if SomeMissing(c, d) {
      MissingDisagrees(c, d);
    } else {
      AlignedIsDocumented(c, d);
    }
  }

  predicate HasId(q: seq<Qualifier>, id: uint64) {
    exists x :: x in q && x.id == id
  }

  lemma Replaced(q: seq<Qualifier>, k: nat, x: Qualifier)
    requires k < |q| && q[k].id == x.id && Ascending(q)
    ensures Ascending(q[k := x])
    ensures forall y :: y in q[k := x] <==> if y.id != x.id then y in q else y == x
  {
    var after := q[k := x];
    assert after[k] == x;
    forall y | y in q && y.id != x.id ensures y in after {
      var i :| 0 <= i < |q| && q[i] == y;
      assert after[i] == y;
    }
  }

  lemma Inserted(q: seq<Qualifier>, p: nat, x: Qualifier)
    requires p <= |q| && Ascending(q) && !HasId(q, x.id)
    requires (forall j :: 0 <= j < p ==> q[j].id < x.id) && (p < |q| ==> q[p].id >= x.id)
    ensures Ascending(q[..p] + [x] + q[p..])
    ensures forall y :: y in q[..p] + [x] + q[p..] <==> if y.id != x.id then y in q else y == x
  {
    if p < |q| {
      assert q[p] in q;
    }
    assert q == q[..p] + q[p..];
  }
}
