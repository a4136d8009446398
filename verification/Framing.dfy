/** Cluster messages batched into datagrams, and taken apart again by the receiver. */
module Framing {
  import opened Common
  import opened Limbs
  import opened Buffer

  /** IV, MAC, and the two member ids. */
  const HEADER := 24 + 2 + 2

  datatype Message = Message(kind: byte, body: seq<byte>)

  /** The stream cipher and the authenticator, under the key both ends share. */
  datatype Cipher = Cipher(crypt: (seq<byte>, seq<byte>) -> seq<byte>, mac: (seq<byte>, seq<byte>) -> seq<byte>) {
    ghost predicate Valid() {
      && (forall iv, x :: |crypt(iv, x)| == |x| && crypt(iv, crypt(iv, x)) == x)
      && (forall iv, x :: |mac(iv, x)| == 8)
    }
  }

  // ----- frames

  function Frame(m: Message): seq<byte> {
    [m.kind] + m.body
  }

  function Frames(ms: seq<Message>): seq<seq<byte>> {
    if ms == [] then [] else [Frame(ms[0])] + Frames(ms[1..])
  }

  function Encode(ms: seq<Message>): seq<byte> {
    if ms == [] then [] else BigEndian(|ms[0].body| + 1, 2) + (Frame(ms[0]) + Encode(ms[1..]))
  }

  /** The receiver's loop: a length that does not fit ends it. */
  function Parse(s: seq<byte>, p: nat): seq<seq<byte>>
    decreases |s| - p
  {
    if p >= |s| then []
    else
      match Read(s, p, 2)
      case None => []
      case Some(len) => if p + 2 + len > |s| then [] else [s[p + 2..p + 2 + len]] + Parse(s, p + 2 + len)
  }

  lemma {:induction false} ParseBack(s: seq<byte>, p: nat, ms: seq<Message>)
    requires At(s, p, Encode(ms)) && p + |Encode(ms)| == |s|
    requires forall m :: m in ms ==> |m.body| + 1 < 65536
    ensures Parse(s, p) == Frames(ms)
    decreases |ms|
  {
    hide At, Read, BigEndian, Frame;
    if ms == [] {
    } else {
      var m, rest := ms[0], Encode(ms[1..]);
      Pow256Two();
      ReadHead(s, p, |m.body| + 1, 2, Frame(m) + rest);
      AtSplit(s, p + 2, Frame(m), rest);
      FrameAt(s, p + 2, m);
      ParseBack(s, p + 2 + |Frame(m)|, ms[1..]);
    }
  }

  lemma FrameAt(s: seq<byte>, p: nat, m: Message)
    requires At(s, p, Frame(m))
    ensures |Frame(m)| == |m.body| + 1 && p + |Frame(m)| <= |s| && s[p..p + |m.body| + 1] == Frame(m)
  {
    Slice(s, p, Frame(m));
  }

  lemma {:induction false} EncodeAppend(ms: seq<Message>, m: Message)
    ensures Encode(ms + [m]) == Encode(ms) + BigEndian(|m.body| + 1, 2) + [m.kind] + m.body
  {
    hide BigEndian, Frame;
    if ms == [] {
      assert ms + [m] == [m];
      assert Encode([m]) == BigEndian(|m.body| + 1, 2) + (Frame(m) + []);
    } else {
      assert (ms + [m])[0] == ms[0] && (ms + [m])[1..] == ms[1..] + [m];
      EncodeAppend(ms[1..], m);
      Regroup(BigEndian(|ms[0].body| + 1, 2), Frame(ms[0]), Encode(ms[1..]), BigEndian(|m.body| + 1, 2), [m.kind], m.body);
    }
    FrameIs(m);
  }

  lemma FrameIs(m: Message)
    ensures Frame(m) == [m.kind] + m.body
  {
  }

  lemma Regroup(a: seq<byte>, b: seq<byte>, c: seq<byte>, len: seq<byte>, kind: seq<byte>, body: seq<byte>)
    ensures a + (b + (c + len + kind + body)) == a + (b + c) + len + kind + body
  {
  }

  lemma {:induction false} FramesConcat(a: seq<Message>, b: seq<Message>)
    ensures Frames(a + b) == Frames(a) + Frames(b)
  {
    if a == [] {
      assert a + b == b;
    } else {
      assert (a + b)[1..] == a[1..] + b;
      FramesConcat(a[1..], b);
    }
  }

  // ----- datagrams

  function Seal(c: Cipher, iv: seq<byte>, data: seq<byte>): seq<byte> {
    var secret := c.crypt(iv, data);
    iv + c.mac(iv, secret) + secret
  }

  /** What a member makes of a datagram: the frames in it, none if it is not authentic or not meant for the member. */
  function Received(c: Cipher, max: nat, id: nat, members: set<nat>, d: seq<byte>): seq<seq<byte>> {
    if |d| < 24 || |d| > max then []
    else
      var iv, mac, secret := d[..16], d[16..24], d[24..];
      if c.mac(iv, secret) != mac then []
      else
        var data := c.crypt(iv, secret);
        var from, to := Read(data, 0, 2), Read(data, 2, 2);
        if from.None? || to.None? || from.value == id || to.value != id || from.value !in members then []
        else Parse(data, 4)
  }

  /** Only a datagram of the right size, with the right authenticator, from another member and to this one is taken apart. */
  lemma ReceivedIs(c: Cipher, max: nat, id: nat, members: set<nat>, d: seq<byte>)
    requires c.Valid()
    ensures Received(c, max, id, members, d) ==
            if |d| < 28 || |d| > max || c.mac(d[..16], d[24..]) != d[16..24] then []
            else
              var data := c.crypt(d[..16], d[24..]);
              var from, to := FromBigEndian(data[0..2]), FromBigEndian(data[2..4]);
              if from == id || to != id || from !in members then [] else Parse(data, 4)
  {
    hide Parse, FromBigEndian;
  }

  /** Frames are read one after the other, each behind two bytes of length, until one is not all there. */
  lemma ParseIs(s: seq<byte>, p: nat)
    ensures p + 2 > |s| ==> Parse(s, p) == []
    ensures p + 2 <= |s| ==>
              var high: nat, low: nat := s[p], s[p + 1];
              var len := 256 * high + low;
              Parse(s, p) == if p + 2 + len > |s| then [] else [s[p + 2..p + 2 + len]] + Parse(s, p + 2 + len)
  {
    if p + 2 <= |s| {
      var two := s[p..p + 2];
      assert two[..1] == [s[p]] && two[..1][..0] == [];
      assert FromBigEndian(two[..1]) == s[p];
    }
  }

  /** Messages are written one after the other: two bytes of length, the kind, the body. */
  lemma EncodeIs(m: Message, ms: seq<Message>)
    ensures Encode([]) == []
    ensures Encode([m] + ms) ==
            [(|m.body| + 1) / 256 % 256, (|m.body| + 1) % 256, m.kind] + m.body + Encode(ms)
  {
    assert ([m] + ms)[1..] == ms;
    var n := |m.body| + 1;
    assert BigEndian(n / 256, 1) == [n / 256 % 256];
    assert BigEndian(n, 2) == [n / 256 % 256, n % 256];
  }

  lemma SealedIsReceived(c: Cipher, max: nat, from: nat, to: nat, members: set<nat>, iv: seq<byte>, ms: seq<Message>)
    requires c.Valid() && |iv| == 16 && from < 65536 && to < 65536 && from != to && from in members
    requires forall m :: m in ms ==> |m.body| + 1 < 65536
    requires 28 + |Encode(ms)| <= max
    ensures var d := Seal(c, iv, BigEndian(from, 2) + (BigEndian(to, 2) + Encode(ms)));
            |d| <= max && Received(c, max, to, members, d) == Frames(ms)
  {
    hide BigEndian, Read, Encode, Parse, At;
    var data := BigEndian(from, 2) + (BigEndian(to, 2) + Encode(ms));
    var secret := c.crypt(iv, data);
    var d := Seal(c, iv, data);
    assert d[..16] == iv && d[16..24] == c.mac(iv, secret) && d[24..] == secret;
    Whole(data);
    Pow256Two();
    ReadHead(data, 0, from, 2, BigEndian(to, 2) + Encode(ms));
    ReadHead(data, 2, to, 2, Encode(ms));
    ParseBack(data, 4, ms);
  }

  lemma Whole(s: seq<byte>)
    ensures At(s, 0, s)
  {
  }

  /** Every datagram within the limit, and together received as the frames of the messages flushed. */
  ghost predicate Delivers(c: Cipher, max: nat, id: nat, members: set<nat>, sent: seq<seq<byte>>, ms: seq<Message>) {
    (forall d :: d in sent ==> |d| <= max) && AllReceived(c, max, id, members, sent) == Frames(ms)
  }

  function AllReceived(c: Cipher, max: nat, id: nat, members: set<nat>, sent: seq<seq<byte>>): seq<seq<byte>> {
    if sent == [] then []
    else AllReceived(c, max, id, members, sent[..|sent| - 1]) + Received(c, max, id, members, sent[|sent| - 1])
  }

  lemma DeliversMore(c: Cipher, max: nat, id: nat, members: set<nat>, sent: seq<seq<byte>>, ms: seq<Message>,
                     d: seq<byte>, more: seq<Message>)
    requires Delivers(c, max, id, members, sent, ms) && |d| <= max && Received(c, max, id, members, d) == Frames(more)
    ensures Delivers(c, max, id, members, sent + [d], ms + more)
  {
    hide Received, Frames;
    assert (sent + [d])[..|sent|] == sent;
    FramesConcat(ms, more);
  }

  /** The queue fits a datagram and holds the header and the frames of the messages. */
  ghost predicate Holds(q: seq<byte>, max: nat, id: nat, member: nat, ms: seq<Message>) {
    && HEADER <= |q| <= max && q[24..] == BigEndian(id, 2) + (BigEndian(member, 2) + Encode(ms))
    && forall m :: m in ms ==> |m.body| + 3 <= max - HEADER
  }

  lemma HoldsMore(q: seq<byte>, max: nat, id: nat, member: nat, ms: seq<Message>, m: Message)
    requires Holds(q, max, id, member, ms) && |m.body| + 3 <= max - HEADER && |q| + |m.body| + 3 <= max
    ensures Holds(q + BigEndian(|m.body| + 1, 2) + [m.kind] + m.body, max, id, member, ms + [m])
  {
    hide Encode, BigEndian;
    EncodeAppend(ms, m);
    Queued(q, BigEndian(id, 2) + BigEndian(member, 2), Encode(ms), BigEndian(|m.body| + 1, 2), [m.kind], m.body);
  }

  /** The queue of messages for one member. */
  class Link {
    const c: Cipher
    const max: nat
    const id: nat
    const member: nat
    var q: seq<byte>
    /** The datagrams handed to the network. */
    var sent: seq<seq<byte>>
    /** The messages in the queue and those sent off. */
    ghost var pending: seq<Message>
    ghost var flushed: seq<Message>

    ghost predicate Wellformed() {
      c.Valid() && HEADER < max < 65536 && id < 65536 && member < 65536 && id != member
    }

    ghost predicate Valid()
      reads this
    {
      && Wellformed() && Holds(q, max, id, member, pending)
      && (forall members: set<nat> :: id in members ==> Delivers(c, max, member, members, sent, flushed))
    }

    constructor (c: Cipher, max: nat, id: nat, member: nat, iv: seq<byte>)
      requires c.Valid() && HEADER < max < 65536 && id < 65536 && member < 65536 && id != member && |iv| == 16
      ensures Valid() && pending == [] && flushed == [] && sent == []
      ensures this.c == c && this.max == max && this.id == id && this.member == member
    {
      this.c, this.max, this.id, this.member := c, max, id, member;
      q := Fresh(iv, id, member);
      sent, pending, flushed := [], [], [];
    }

    /** Sends off what is queued, if anything, and starts over. */
    method Flush(iv: seq<byte>)
      requires Valid() && |iv| == 16
      modifies this
      ensures Valid() && pending == [] && |q| == HEADER
      ensures flushed == old(flushed) + old(pending)
      ensures old(pending) == [] ==> sent == old(sent)
      ensures old(pending) != [] ==>
                var iv, secret := old(q)[..16], c.crypt(old(q)[..16], old(q)[24..]);
                sent == old(sent) + [iv + c.mac(iv, secret) + secret]
    {
      hide Encode, BigEndian, Delivers;
      QueueLength(pending);
      if |q| > HEADER {
        ghost var ms := pending;
        var d := Seal(c, q[..16], q[24..]);
        forall members: set<nat> | id in members
          ensures Delivers(c, max, member, members, sent + [d], flushed + ms)
        {
          SealedIsReceived(c, max, id, member, members, q[..16], ms);
          DeliversMore(c, max, member, members, sent, flushed, d, ms);
        }
        sent := sent + [d];
        flushed, pending := flushed + ms, [];
        NoMessages();
        q := Fresh(iv, id, member);
      } else {
        assert flushed + pending == flushed;
      }
    }

    /** Queues a message, sending off the queue first if it would not fit. */
    method Send(kind: byte, body: seq<byte>, iv: seq<byte>) returns (ok: bool)
      requires Valid() && |iv| == 16
      modifies this
      ensures Valid()
      ensures ok <==> |body| + 3 <= max - HEADER
      ensures flushed + pending == old(flushed + pending) + if ok then [Message(kind, body)] else []
      ensures ok ==> pending == (if |old(q)| + |body| + 3 > max then [] else old(pending)) + [Message(kind, body)]
      ensures !ok ==> unchanged(this)
    {
      if |body| + 3 > max - HEADER {
        return false;
      }
      hide Holds, BigEndian, Delivers;
      ghost var all := flushed + pending;
      if |q| + |body| + 3 > max {
        Flush(iv);
        assert flushed + pending == all;
      }
      HoldsMore(q, max, id, member, pending, Message(kind, body));
      q := q + BigEndian(|body| + 1, 2) + [kind] + body;
      pending := pending + [Message(kind, body)];
      assert flushed + pending == all + [Message(kind, body)];
      ok := true;
    }
  }

  /** An empty queue: the IV, room for the MAC, and the two ids. */
  function Fresh(iv: seq<byte>, id: nat, member: nat): (q: seq<byte>)
    requires |iv| == 16
    ensures |q| == HEADER && q[24..] == BigEndian(id, 2) + (BigEndian(member, 2) + Encode([]))
  {
    iv + seq(8, _ => 0) + BigEndian(id, 2) + BigEndian(member, 2)
  }

  lemma NoMessages()
    ensures Encode([]) == []
  {
  }

  lemma QueueLength(ms: seq<Message>)
    ensures |Encode(ms)| == 0 <==> ms == []
  {
  }

  lemma Queued(q: seq<byte>, ids: seq<byte>, queued: seq<byte>, len: seq<byte>, kind: seq<byte>, body: seq<byte>)
    requires |q| >= HEADER && |ids| == 4 && q[24..] == ids + queued
    ensures (q + len + kind + body)[24..] == ids + (queued + len + kind + body)
  {
  }

  /** Takes a datagram apart. */
  method Receive(c: Cipher, max: nat, id: nat, members: set<nat>, d: seq<byte>) returns (frames: seq<seq<byte>>)
    ensures frames == Received(c, max, id, members, d)
  {
    hide Read;
    frames := [];
    if |d| < 24 || |d| > max {
      return;
    }
    var iv, mac, secret := d[..16], d[16..24], d[24..];
    if c.mac(iv, secret) != mac {
      return;
    }
    var data := c.crypt(iv, secret);
    var from, to := Read(data, 0, 2), Read(data, 2, 2);
    if from.None? || to.None? || from.value == id || to.value != id || from.value !in members {
      return;
    }
    var p: nat := 4;
    assert [] + Parse(data, 4) == Parse(data, 4);
    while p < |data|
      invariant Parse(data, 4) == frames + Parse(data, p)
    {
      var len := Read(data, p, 2);
      if len.None? || p + 2 + len.value > |data| {
        break;
      }
      assert Parse(data, p) == [data[p + 2..p + 2 + len.value]] + Parse(data, p + 2 + len.value);
      frames := frames + [data[p + 2..p + 2 + len.value]];
      p := p + 2 + len.value;
    }
    assert frames + [] == frames;
  }
}
