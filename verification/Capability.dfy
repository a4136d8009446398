/** The binary form of capabilities: a table of flow rules and a chain of custody. */
module Capability {
  import opened Common
  import opened Limbs
  import opened Buffer

  const MAX_RULES := 64
  const MAX_CUSTODY := 7
  const ADDRESS_LENGTH := 5
  const SIGNATURE_LENGTH := 96

  datatype Error = OutOfBounds | Overflow | BadToken
  datatype Result<+T> = Ok(value: T) | Err(error: Error)

  /** A flow rule: its type byte, and the fields that type selects. */
  datatype Rule = Rule(t: byte, fields: seq<nat>)

  datatype Custody = Custody(to: nat, from: nat, signature: seq<byte>)

  datatype Capability = Capability(network: nat, timestamp: nat, id: nat, rules: seq<Rule>, maxCustody: nat,
                                   custody: seq<Custody>)

  /** The widths in bytes of the fields of a rule type. */
  function Layout(t: byte): seq<nat> {
    var k := t % 64;
    if 2 <= k <= 4 then [8, 4, 2]                 // tee, watch, redirect: address, flags, length
    else if k == 24 || k == 25 then [5]           // source or destination ZeroTier address
    else if k == 26 || k == 37 then [2]           // VLAN id, ethertype
    else if k == 27 || k == 28 || k == 36 then [1]  // VLAN PCP and DEI, IP protocol
    else if k == 29 || k == 30 then [6]           // MAC addresses
    else if k == 31 || k == 32 then [4, 1]        // IPv4 address and mask
    else if k == 33 || k == 34 then [16, 1]       // IPv6 address and mask
    else if k == 35 || k == 38 then [1, 1, 1]     // TOS mask and values; ICMP type, code, flags
    else if k == 39 || k == 40 || k == 42 then [2, 2]  // port and frame size ranges
    else if k == 41 then [8]                      // characteristics
    else if k == 43 then [4]                      // random probability
    else if 44 <= k <= 50 then [4, 4]             // tag id and value
    else []
  }

  function Size(layout: seq<nat>): nat {
    if layout == [] then 0 else layout[0] + Size(layout[1..])
  }

  lemma LayoutSize(t: byte)
    ensures Size(Layout(t)) <= 17
  {
    var l := Layout(t);
    assert |l| <= 3;
    assert |l| >= 1 ==> Size(l) == l[0] + Size(l[1..]);
    assert |l| >= 2 ==> l[1..][0] == l[1] && Size(l[1..]) == l[1] + Size(l[1..][1..]);
    assert |l| >= 3 ==> l[1..][1..] == [l[2]] && Size([l[2]]) == l[2] + Size([l[2]][1..]);
    assert |l| == 1 ==> l[1..] == [];
    assert |l| == 2 ==> l[1..][1..] == [];
  }

  predicate Fits(layout: seq<nat>, fields: seq<nat>) {
    |fields| == |layout| && forall i :: 0 <= i < |layout| ==> fields[i] < Pow256(layout[i])
  }

  predicate ValidRule(r: Rule) {
    Fits(Layout(r.t), r.fields)
  }

  predicate ValidCustody(c: Custody) {
    0 < c.to < Pow256(ADDRESS_LENGTH) && c.from < Pow256(ADDRESS_LENGTH) && |c.signature| == SIGNATURE_LENGTH
  }

  predicate ValidCapability(c: Capability) {
    && c.network < Pow256(8) && c.timestamp < Pow256(8) && c.id < Pow256(4)
    && |c.rules| <= MAX_RULES && (forall r :: r in c.rules ==> ValidRule(r))
    && 1 <= c.maxCustody <= MAX_CUSTODY && |c.custody| <= c.maxCustody
    && (forall e :: e in c.custody ==> ValidCustody(e))
  }

  // ----- writing

  function EncodeFields(layout: seq<nat>, fields: seq<nat>): (s: seq<byte>)
    requires |fields| == |layout|
    ensures |s| == Size(layout)
  {
    if layout == [] then [] else BigEndian(fields[0], layout[0]) + EncodeFields(layout[1..], fields[1..])
  }

  /** A rule on the wire; extra stands for bytes a later version may add to its field. */
  function EncodeRule(r: Rule, extra: seq<byte>): seq<byte>
    requires |r.fields| == |Layout(r.t)| && Size(Layout(r.t)) + |extra| < 256
  {
    [r.t, Size(Layout(r.t)) + |extra|] + EncodeFields(Layout(r.t), r.fields) + extra
  }

  predicate Wire(rules: seq<Rule>, extras: seq<seq<byte>>) {
    && |extras| == |rules|
    && forall i :: 0 <= i < |rules| ==> ValidRule(rules[i]) && Size(Layout(rules[i].t)) + |extras[i]| < 256
  }

  function EncodeWire(rules: seq<Rule>, extras: seq<seq<byte>>): seq<byte>
    requires Wire(rules, extras)
  {
    if rules == [] then [] else EncodeRule(rules[0], extras[0]) + EncodeWire(rules[1..], extras[1..])
  }

  function Plain(n: nat): (e: seq<seq<byte>>)
    ensures |e| == n && forall i :: 0 <= i < n ==> e[i] == []
  {
    seq(n, _ => [])
  }

  function EncodeRules(rules: seq<Rule>): seq<byte>
    requires forall r :: r in rules ==> ValidRule(r)
  {
    PlainIsWire(rules);
    EncodeWire(rules, Plain(|rules|))
  }

  lemma PlainIsWire(rules: seq<Rule>)
    requires forall r :: r in rules ==> ValidRule(r)
    ensures Wire(rules, Plain(|rules|))
  {
    forall i | 0 <= i < |rules| ensures Size(Layout(rules[i].t)) < 256 {
      LayoutSize(rules[i].t);
    }
  }

  function EncodeCustody(c: Custody): seq<byte> {
    BigEndian(c.to, ADDRESS_LENGTH) + (BigEndian(c.from, ADDRESS_LENGTH) +
    ([1] + (BigEndian(SIGNATURE_LENGTH, 2) + c.signature)))
  }

  function EncodeChain(chain: seq<Custody>): seq<byte> {
    if chain == [] then BigEndian(0, ADDRESS_LENGTH) else EncodeCustody(chain[0]) + EncodeChain(chain[1..])
  }

  function Encode(c: Capability): seq<byte>
    requires ValidCapability(c)
  {
    BigEndian(c.network, 8) + (BigEndian(c.timestamp, 8) + (BigEndian(c.id, 4) + (BigEndian(|c.rules|, 2) + EncodeBody(c))))
  }

  function EncodeBody(c: Capability): seq<byte>
    requires ValidCapability(c)
  {
    EncodeRules(c.rules) + ([c.maxCustody] + (EncodeChain(c.custody) + BigEndian(0, 2)))
  }

  // ----- reading

  function DecodeFields(s: seq<byte>, p: nat, layout: seq<nat>): Result<seq<nat>>
    decreases |layout|
  {
    if layout == [] then Ok([])
    else
      match (Read(s, p, layout[0]), DecodeFields(s, p + layout[0], layout[1..]))
      case (Some(v), Ok(rest)) => Ok([v] + rest)
      case _ => Err(OutOfBounds)
  }

  /** Reads rules while more are expected and bytes are left; each field's length byte says where the next rule is. */
  function DecodeRules(s: seq<byte>, p: nat, max: nat): (r: Result<(seq<Rule>, nat)>)
    ensures r.Ok? ==> r.value.1 >= p && |r.value.0| <= max
    decreases max
  {
    if max == 0 || p >= |s| then Ok(([], p))
    else if p + 1 >= |s| then Err(OutOfBounds)
    else
      match DecodeFields(s, p + 2, Layout(s[p]))
      case Err(e) => Err(e)
      case Ok(fields) => Prepend([Rule(s[p], fields)], DecodeRules(s, p + 2 + s[p + 1], max - 1))
  }

  function Prepend<T>(xs: seq<T>, r: Result<(seq<T>, nat)>): Result<(seq<T>, nat)> {
    match r
    case Err(e) => Err(e)
    case Ok(v) => Ok((xs + v.0, v.1))
  }

  /** One link of the chain of custody: None at the zero address that ends it. */
  function DecodeLink(s: seq<byte>, p: nat, room: bool): (r: Result<(Option<Custody>, nat)>)
    ensures r.Ok? ==> r.value.1 >= p && (r.value.0.Some? ==> room)
  {
    var to := Read(s, p, ADDRESS_LENGTH);
    if to.None? then Err(OutOfBounds)
    else if to.value == 0 then Ok((None, p + ADDRESS_LENGTH))
    else if !room then Err(Overflow)
    else
      var from := Read(s, p + 5, ADDRESS_LENGTH);
      var len := Read(s, p + 11, 2);
      if from.None? || p + 10 >= |s| || len.None? then Err(OutOfBounds)
      else if s[p + 10] != 1 then Ok((Some(Custody(to.value, from.value, NoSignature())), p + 13 + len.value))
      else if len.value != SIGNATURE_LENGTH then Err(BadToken)
      else if p + 13 + SIGNATURE_LENGTH > |s| then Err(OutOfBounds)
      else Ok((Some(Custody(to.value, from.value, s[p + 13..p + 13 + SIGNATURE_LENGTH])), p + 13 + SIGNATURE_LENGTH))
  }

  function DecodeChain(s: seq<byte>, p: nat, i: nat, max: nat): (r: Result<(seq<Custody>, nat)>)
    requires i <= max
    ensures r.Ok? ==> r.value.1 >= p && |r.value.0| <= max - i
    decreases max - i
  {
    match DecodeLink(s, p, i < max)
    case Err(e) => Err(e)
    case Ok((None, q)) => Ok(([], q))
    case Ok((Some(c), q)) => Prepend([c], DecodeChain(s, q, i + 1, max))
  }

  /** The rules, the chain of custody and any additional fields, which are skipped. */
  function DecodeBody(s: seq<byte>, p: nat, count: nat): (r: Result<(seq<Rule>, nat, seq<Custody>, nat)>)
    ensures r.Ok? ==> r.value.3 >= p
  {
    match DecodeRules(s, p, count)
    case Err(e) => Err(e)
    case Ok((rules, q)) =>
      if q >= |s| then Err(OutOfBounds)
      else if s[q] < 1 || s[q] > MAX_CUSTODY then Err(Overflow)
      else
        match DecodeChain(s, q + 1, 0, s[q])
        case Err(e) => Err(e)
        case Ok((custody, end)) =>
          var more := Read(s, end, 2);
          if more.None? then Err(OutOfBounds)
          else if end + 2 + more.value > |s| then Err(Overflow)
          else Ok((rules, s[q], custody, end + 2 + more.value))
  }

  /** A capability read at a position, and how many bytes it took. */
  function Decode(s: seq<byte>, start: nat): Result<(Capability, nat)> {
    var network, timestamp := Read(s, start, 8), Read(s, start + 8, 8);
    var id, count := Read(s, start + 16, 4), Read(s, start + 20, 2);
    if network.None? || timestamp.None? || id.None? || count.None? then Err(OutOfBounds)
    else if count.value > MAX_RULES then Err(Overflow)
    else
      match DecodeBody(s, start + 22, count.value)
      case Err(e) => Err(e)
      case Ok((rules, maxCustody, custody, end)) =>
        Ok((Capability(network.value, timestamp.value, id.value, rules, maxCustody, custody), end - start))
  }

  // ----- reading what was written, anywhere in a buffer

  lemma {:induction false} FieldsBack(s: seq<byte>, p: nat, layout: seq<nat>, fields: seq<nat>)
    requires Fits(layout, fields) && |fields| == |layout| && At(s, p, EncodeFields(layout, fields))
    ensures DecodeFields(s, p, layout) == Ok(fields)
    decreases |layout|
  {
    hide *;
    if layout == [] {
      NoFields(s, p, fields);
    } else {
      FieldsParts(layout, fields);
      ReadHead(s, p, fields[0], layout[0], EncodeFields(layout[1..], fields[1..]));
      FieldsBack(s, p + layout[0], layout[1..], fields[1..]);
      DecodeField(s, p, layout, fields[0], fields[1..]);
      assert fields == [fields[0]] + fields[1..];
    }
  }

  lemma NoFields(s: seq<byte>, p: nat, fields: seq<nat>)
    requires fields == []
    ensures DecodeFields(s, p, []) == Ok(fields)
  {
  }

  lemma FieldsParts(layout: seq<nat>, fields: seq<nat>)
    requires Fits(layout, fields) && layout != []
    ensures fields[0] < Pow256(layout[0]) && Fits(layout[1..], fields[1..])
    ensures EncodeFields(layout, fields) == BigEndian(fields[0], layout[0]) + EncodeFields(layout[1..], fields[1..])
  {
  }

  lemma DecodeField(s: seq<byte>, p: nat, layout: seq<nat>, v: nat, rest: seq<nat>)
    requires layout != [] && Read(s, p, layout[0]) == Some(v) && DecodeFields(s, p + layout[0], layout[1..]) == Ok(rest)
    ensures DecodeFields(s, p, layout) == Ok([v] + rest)
  {
    hide Read;
  }

  /** Rules come back, and unknown bytes in or after their fields are skipped without losing the place. */
  lemma {:induction false} WireBack(s: seq<byte>, p: nat, rules: seq<Rule>, extras: seq<seq<byte>>)
    requires Wire(rules, extras) && |extras| == |rules| && At(s, p, EncodeWire(rules, extras))
    ensures DecodeRules(s, p, |rules|) == Ok((rules, p + |EncodeWire(rules, extras)|))
    decreases |rules|
  {
    hide *;
    if rules == [] {
      NoRules(s, p, rules, extras);
    } else {
      WireParts(rules, extras);
      var r, x := rules[0], extras[0];
      var one, rest := EncodeRule(r, x), EncodeWire(rules[1..], extras[1..]);
      AtSplit(s, p, one, rest);
      RuleBack(s, p, r, x);
      WireBack(s, p + |one|, rules[1..], extras[1..]);
      DecodeOne(s, p, |rules|, r.fields, p + |one|);
      Joined(r, rules, p + |one| + |rest|);
    }
  }

  lemma NoRules(s: seq<byte>, p: nat, rules: seq<Rule>, extras: seq<seq<byte>>)
    requires rules == [] && Wire(rules, extras)
    ensures DecodeRules(s, p, |rules|) == Ok((rules, p + |EncodeWire(rules, extras)|))
  {
  }

  lemma WireParts(rules: seq<Rule>, extras: seq<seq<byte>>)
    requires Wire(rules, extras) && rules != []
    ensures ValidRule(rules[0]) && Size(Layout(rules[0].t)) + |extras[0]| < 256 && Wire(rules[1..], extras[1..])
    ensures |rules[0].fields| == |Layout(rules[0].t)|
    ensures EncodeWire(rules, extras) == EncodeRule(rules[0], extras[0]) + EncodeWire(rules[1..], extras[1..])
  {
  }

  lemma DecodeOne(s: seq<byte>, p: nat, max: nat, fields: seq<nat>, q: nat)
    requires 0 < max && p + 1 < |s| && DecodeFields(s, p + 2, Layout(s[p])) == Ok(fields) && q == p + 2 + s[p + 1]
    ensures DecodeRules(s, p, max) == Prepend([Rule(s[p], fields)], DecodeRules(s, q, max - 1))
  {
    hide DecodeFields, Layout;
  }

  lemma Joined(r: Rule, rules: seq<Rule>, end: nat)
    requires rules != [] && rules[0] == r
    ensures Prepend([r], Ok((rules[1..], end))) == Ok((rules, end))
  {
    assert [r] + rules[1..] == rules;
  }

  lemma RuleBack(s: seq<byte>, p: nat, r: Rule, extra: seq<byte>)
    requires ValidRule(r) && Size(Layout(r.t)) + |extra| < 256 && At(s, p, EncodeRule(r, extra))
    ensures p + 1 < |s| && s[p] == r.t && p + 2 + s[p + 1] == p + |EncodeRule(r, extra)|
    ensures DecodeFields(s, p + 2, Layout(r.t)) == Ok(r.fields)
  {
    assert |r.fields| == |Layout(r.t)| && Fits(Layout(r.t), r.fields);
    var head, fields := [r.t, Size(Layout(r.t)) + |extra|], EncodeFields(Layout(r.t), r.fields);
    assert EncodeRule(r, extra) == head + fields + extra;
    hide *;
    AtSplit(s, p, head + fields, extra);
    AtSplit(s, p, head, fields);
    Bytes(s, p, head);
    FieldsBack(s, p + 2, Layout(r.t), r.fields);
    assert s[p + 0] == head[0] && s[p + 1] == head[1];
  }

  lemma LinkBack(s: seq<byte>, p: nat, c: Custody)
    requires ValidCustody(c) && At(s, p, EncodeCustody(c))
    ensures DecodeLink(s, p, true) == Ok((Some(c), p + |EncodeCustody(c)|))
  {
    Pow256Two();
    hide Read, At, Pow256, BigEndian;
    var sig := BigEndian(SIGNATURE_LENGTH, 2) + c.signature;
    ReadHead(s, p, c.to, 5, BigEndian(c.from, 5) + ([1] + sig));
    ReadHead(s, p + 5, c.from, 5, [1] + sig);
    AtSplit(s, p + 10, [1], sig);
    Bytes(s, p + 10, [1]);
    ReadHead(s, p + 11, SIGNATURE_LENGTH, 2, c.signature);
    Slice(s, p + 13, c.signature);
  }

  lemma {:induction false} ChainBack(s: seq<byte>, p: nat, i: nat, max: nat, chain: seq<Custody>)
    requires i + |chain| <= max && (forall e :: e in chain ==> ValidCustody(e)) && At(s, p, EncodeChain(chain))
    ensures DecodeChain(s, p, i, max) == Ok((chain, p + |EncodeChain(chain)|))
    decreases |chain|
  {
    hide At, Read, DecodeLink, EncodeCustody, ValidCustody;
    if chain == [] {
      EndBack(s, p, i < max);
    } else {
      var one, rest := EncodeCustody(chain[0]), EncodeChain(chain[1..]);
      AtSplit(s, p, one, rest);
      LinkBack(s, p, chain[0]);
      ChainBack(s, p + |one|, i + 1, max, chain[1..]);
      assert chain == [chain[0]] + chain[1..];
    }
  }

  lemma EndBack(s: seq<byte>, p: nat, room: bool)
    requires At(s, p, BigEndian(0, ADDRESS_LENGTH))
    ensures DecodeLink(s, p, room) == Ok((None, p + ADDRESS_LENGTH))
  {
    Pow256Two();
    ReadBack(s, p, 0, ADDRESS_LENGTH);
  }

  /** A capability comes back from any offset of any buffer, and exactly its own bytes are consumed. */
  lemma RoundTrip(c: Capability, before: seq<byte>, after: seq<byte>)
    requires ValidCapability(c)
    ensures Decode(before + Encode(c) + after, |before|) == Ok((c, |Encode(c)|))
  {
    var s := before + Encode(c) + after;
    assert s[|before|..|before| + |Encode(c)|] == Encode(c);
    CapabilityBack(s, |before|, c);
  }

  lemma CapabilityBack(s: seq<byte>, p: nat, c: Capability)
    requires ValidCapability(c) && At(s, p, Encode(c))
    ensures Decode(s, p) == Ok((c, |Encode(c)|))
  {
    Pow256Two();
    hide Read, At, Pow256, BigEndian, EncodeBody, DecodeBody, ValidRule, ValidCustody;
    var body := EncodeBody(c);
    ReadHead(s, p, c.network, 8, BigEndian(c.timestamp, 8) + (BigEndian(c.id, 4) + (BigEndian(|c.rules|, 2) + body)));
    ReadHead(s, p + 8, c.timestamp, 8, BigEndian(c.id, 4) + (BigEndian(|c.rules|, 2) + body));
    ReadHead(s, p + 16, c.id, 4, BigEndian(|c.rules|, 2) + body);
    ReadHead(s, p + 20, |c.rules|, 2, body);
    BodyBack(s, p + 22, c);
  }

  lemma BodyBack(s: seq<byte>, p: nat, c: Capability)
    requires ValidCapability(c) && At(s, p, EncodeBody(c))
    ensures DecodeBody(s, p, |c.rules|) == Ok((c.rules, c.maxCustody, c.custody, p + |EncodeBody(c)|))
  {
    hide Read, At, Pow256, BigEndian, EncodeChain, EncodeRules, DecodeRules, DecodeChain, ValidRule, ValidCustody;
    var chain := EncodeChain(c.custody) + BigEndian(0, 2);
    var rules := EncodeRules(c.rules);
    AtSplit(s, p, rules, [c.maxCustody] + chain);
    RulesBack(s, p, c.rules);
    var q := p + |rules|;
    AtSplit(s, q, [c.maxCustody], chain);
    Bytes(s, q, [c.maxCustody]);
    AtSplit(s, q + 1, EncodeChain(c.custody), BigEndian(0, 2));
    ChainBack(s, q + 1, 0, c.maxCustody, c.custody);
    ZeroBack(s, q + 1 + |EncodeChain(c.custody)|);
  }

  lemma RulesBack(s: seq<byte>, p: nat, rules: seq<Rule>)
    requires (forall r :: r in rules ==> ValidRule(r)) && At(s, p, EncodeRules(rules))
    ensures DecodeRules(s, p, |rules|) == Ok((rules, p + |EncodeRules(rules)|))
  {
    hide At, ValidRule, DecodeRules, EncodeWire;
    PlainIsWire(rules);
    WireBack(s, p, rules, Plain(|rules|));
  }

  lemma ZeroBack(s: seq<byte>, p: nat)
    requires At(s, p, BigEndian(0, 2))
    ensures Read(s, p, 2) == Some(0) && p + 2 <= |s|
  {
    Pow256Two();
    ReadBack(s, p, 0, 2);
  }

  // ----- the loops over a buffer

  /** Appends to a buffer: everything if it fits, and otherwise the call fails. */
  twostate predicate Appended(b: Buffer, part: seq<byte>, ok: bool)
    requires old(b.Valid())
    reads b, b.b
  {
    && b.Valid() && (ok <==> old(b.l) + |part| <= b.b.Length)
    && (ok ==> b.Contents() == old(b.Contents()) + part)
  }

  /** Appends an integer on the way to the contents in goal, with rest still to come. */
  method AppendInt(b: Buffer, v: nat, n: nat, ghost rest: seq<byte>, ghost goal: seq<byte>) returns (ok: bool)
    requires b.Valid() && b.Contents() + (BigEndian(v, n) + rest) == goal
    modifies b, b.b
    ensures b.Valid() && (if ok then b.Contents() + rest == goal else |goal| > b.b.Length)
  {
    ok := b.Append(v, n);
    assert old(b.Contents()) + (BigEndian(v, n) + rest) == old(b.Contents()) + BigEndian(v, n) + rest;
  }

  method AppendByte(b: Buffer, v: byte, ghost rest: seq<byte>, ghost goal: seq<byte>) returns (ok: bool)
    requires b.Valid() && b.Contents() + ([v] + rest) == goal
    modifies b, b.b
    ensures b.Valid() && (if ok then b.Contents() + rest == goal else |goal| > b.b.Length)
  {
    ok := b.AppendBytes([v]);
    assert old(b.Contents()) + ([v] + rest) == old(b.Contents()) + [v] + rest;
  }

  method SerializeFields(b: Buffer, layout: seq<nat>, fields: seq<nat>, ghost goal: seq<byte>) returns (ok: bool)
    requires b.Valid() && |fields| == |layout| && b.Contents() + EncodeFields(layout, fields) == goal
    modifies b, b.b
    ensures b.Valid() && (if ok then b.Contents() == goal else |goal| > b.b.Length)
    decreases |layout|
  {
    hide BigEndian;
    ok := true;
    if layout != [] {
      ok := AppendInt(b, fields[0], layout[0], EncodeFields(layout[1..], fields[1..]), goal);
      if ok {
        ok := SerializeFields(b, layout[1..], fields[1..], goal);
      }
    }
  }

  method SerializeRule(b: Buffer, r: Rule) returns (ok: bool)
    requires b.Valid() && |r.fields| == |Layout(r.t)| && Size(Layout(r.t)) < 256
    modifies b, b.b
    ensures Appended(b, EncodeRule(r, []), ok)
  {
    hide EncodeFields, Layout, Size;
    var layout := Layout(r.t);
    ghost var fields, goal := EncodeFields(layout, r.fields), b.Contents() + EncodeRule(r, []);
    assert EncodeRule(r, []) == [r.t] + ([Size(layout)] + fields);
    ok := AppendByte(b, r.t, [Size(layout)] + fields, goal);
    if !ok {
      return;
    }
    ok := AppendByte(b, Size(layout), fields, goal);
    if !ok {
      return;
    }
    ok := SerializeFields(b, layout, r.fields, goal);
  }

  lemma NextRule(rules: seq<Rule>, i: nat)
    requires i < |rules| && forall r :: r in rules ==> ValidRule(r)
    ensures forall r :: r in rules[i..] ==> ValidRule(r)
    ensures forall r :: r in rules[i + 1..] ==> ValidRule(r)
    ensures Size(Layout(rules[i].t)) < 256 && |rules[i].fields| == |Layout(rules[i].t)|
    ensures EncodeRules(rules[i..]) == EncodeRule(rules[i], []) + EncodeRules(rules[i + 1..])
  {
    LayoutSize(rules[i].t);
    assert ValidRule(rules[i]);
    hide Layout, EncodeRule, Fits;
    var n := |rules| - i;
    PlainIsWire(rules[i..]);
    assert Plain(n)[1..] == Plain(n - 1);
    assert rules[i..][1..] == rules[i + 1..];
    WireParts(rules[i..], Plain(n));
  }

  method SerializeRules(b: Buffer, rules: seq<Rule>) returns (ok: bool)
    requires b.Valid() && forall r :: r in rules ==> ValidRule(r)
    modifies b, b.b
    ensures Appended(b, EncodeRules(rules), ok)
  {
    hide EncodeRules, EncodeRule, ValidRule, Layout, Size;
    ok := true;
    assert rules[0..] == rules;
    for i := 0 to |rules|
      invariant ok && b.Valid() && (forall r :: r in rules[i..] ==> ValidRule(r))
      invariant b.Contents() + EncodeRules(rules[i..]) == old(b.Contents()) + EncodeRules(rules)
    {
      NextRule(rules, i);
      ok := SerializeRule(b, rules[i]);
      if !ok {
        return;
      }
    }
    NoneLeft(rules);
  }

  lemma NoneLeft(rules: seq<Rule>)
    ensures EncodeRules(rules[|rules|..]) == []
  {
  }

  method SerializeLink(b: Buffer, c: Custody) returns (ok: bool)
    requires b.Valid()
    modifies b, b.b
    ensures Appended(b, EncodeCustody(c), ok)
  {
    hide BigEndian;
    ghost var sig, goal := BigEndian(SIGNATURE_LENGTH, 2) + c.signature, b.Contents() + EncodeCustody(c);
    ok := AppendInt(b, c.to, ADDRESS_LENGTH, BigEndian(c.from, ADDRESS_LENGTH) + ([1] + sig), goal);
    if !ok {
      return;
    }
    ok := AppendInt(b, c.from, ADDRESS_LENGTH, [1] + sig, goal);
    if !ok {
      return;
    }
    ok := AppendByte(b, 1, sig, goal);
    if !ok {
      return;
    }
    ok := AppendInt(b, SIGNATURE_LENGTH, 2, c.signature, goal);
    if !ok {
      return;
    }
    ok := b.AppendBytes(c.signature);
  }

  /** The links of the chain, and the zero address that ends it. */
  method SerializeChain(b: Buffer, chain: seq<Custody>) returns (ok: bool)
    requires b.Valid()
    modifies b, b.b
    ensures Appended(b, EncodeChain(chain), ok)
  {
    hide EncodeCustody, BigEndian;
    ok := true;
    assert chain[0..] == chain;
    for i := 0 to |chain|
      invariant ok && b.Valid()
      invariant b.Contents() + EncodeChain(chain[i..]) == old(b.Contents()) + EncodeChain(chain)
    {
      assert chain[i..][1..] == chain[i + 1..];
      ok := SerializeLink(b, chain[i]);
      if !ok {
        return;
      }
    }
    ok := b.Append(0, ADDRESS_LENGTH);
  }

  method SerializeBody(b: Buffer, c: Capability) returns (ok: bool)
    requires b.Valid() && ValidCapability(c)
    modifies b, b.b
    ensures Appended(b, EncodeBody(c), ok)
  {
    hide EncodeRules, EncodeChain, BigEndian;
    ghost var chain, goal := EncodeChain(c.custody) + BigEndian(0, 2), b.Contents() + EncodeBody(c);
    ok := SerializeRules(b, c.rules);
    if !ok {
      return;
    }
    assert b.Contents() + ([c.maxCustody] + chain) == goal;
    ok := AppendByte(b, c.maxCustody, chain, goal);
    if !ok {
      return;
    }
    ok := SerializeChain(b, c.custody);
    if !ok {
      return;
    }
    ok := b.Append(0, 2);
  }

  /** Appends a capability to a buffer. */
  method Serialize(b: Buffer, c: Capability) returns (ok: bool)
    requires b.Valid() && ValidCapability(c)
    modifies b, b.b
    ensures Appended(b, Encode(c), ok)
  {
    hide EncodeBody, BigEndian, ValidRule, ValidCustody;
    ghost var body, goal := EncodeBody(c), b.Contents() + Encode(c);
    ok := AppendInt(b, c.network, 8,
                    BigEndian(c.timestamp, 8) + (BigEndian(c.id, 4) + (BigEndian(|c.rules|, 2) + body)), goal);
    if !ok {
      return;
    }
    ok := AppendInt(b, c.timestamp, 8, BigEndian(c.id, 4) + (BigEndian(|c.rules|, 2) + body), goal);
    if !ok {
      return;
    }
    ok := AppendInt(b, c.id, 4, BigEndian(|c.rules|, 2) + body, goal);
    if !ok {
      return;
    }
    ok := AppendInt(b, |c.rules|, 2, body, goal);
    if !ok {
      return;
    }
    ok := SerializeBody(b, c);
  }

  method DeserializeRules(s: seq<byte>, start: nat, max: nat) returns (r: Result<(seq<Rule>, nat)>)
    ensures r == DecodeRules(s, start, max)
  {
    hide DecodeFields, Layout;
    var rules: seq<Rule> := [];
    var p: nat := start;
    PrependNothing(DecodeRules(s, start, max));
    while |rules| < max && p < |s|
      invariant |rules| <= max
      invariant DecodeRules(s, start, max) == Prepend(rules, DecodeRules(s, p, max - |rules|))
    {
      if p + 1 >= |s| {
        return Err(OutOfBounds);
      }
      var fields := DecodeFields(s, p + 2, Layout(s[p]));
      if fields.Err? {
        return Err(fields.error);
      }
      var rule := Rule(s[p], fields.value);
      Collect(rules, rule, DecodeRules(s, p + 2 + s[p + 1], max - |rules| - 1));
      rules := rules + [rule];
      p := p + 2 + s[p + 1];
    }
    assert rules + [] == rules;
    r := Ok((rules, p));
  }

  lemma PrependNothing<T>(r: Result<(seq<T>, nat)>)
    ensures Prepend([], r) == r
  {
    if r.Ok? {
      assert [] + r.value.0 == r.value.0;
    }
  }

  lemma Collect<T>(xs: seq<T>, x: T, r: Result<(seq<T>, nat)>)
    ensures Prepend(xs, Prepend([x], r)) == Prepend(xs + [x], r)
  {
    if r.Ok? {
      assert xs + ([x] + r.value.0) == xs + [x] + r.value.0;
    }
  }

  method DeserializeChain(s: seq<byte>, start: nat, max: nat) returns (r: Result<(seq<Custody>, nat)>)
    ensures r == DecodeChain(s, start, 0, max)
  {
    hide DecodeLink;
    var chain: seq<Custody> := [];
    var p: nat, more := start, true;
    PrependNothing(DecodeChain(s, start, 0, max));
    while more
      invariant |chain| <= max
      invariant more ==> DecodeChain(s, start, 0, max) == Prepend(chain, DecodeChain(s, p, |chain|, max))
      invariant !more ==> DecodeChain(s, start, 0, max) == Ok((chain, p))
      decreases max - |chain|, more
    {
      var link := DecodeLink(s, p, |chain| < max);
      if link.Err? {
        return Err(link.error);
      }
      p := link.value.1;
      if link.value.0.None? {
        assert chain + [] == chain;
        more := false;
      } else {
        var c := link.value.0.value;
        Collect(chain, c, DecodeChain(s, p, |chain| + 1, max));
        chain := chain + [c];
      }
    }
    r := Ok((chain, p));
  }

  /** Reads a capability at a position of a buffer; Decode's round trip is about this method. */
  method Deserialize(s: seq<byte>, start: nat) returns (r: Result<(Capability, nat)>)
    ensures r == Decode(s, start)
  {
    hide Read, DecodeRules, DecodeChain;
    var network, timestamp := Read(s, start, 8), Read(s, start + 8, 8);
    var id, count := Read(s, start + 16, 4), Read(s, start + 20, 2);
    if network.None? || timestamp.None? || id.None? || count.None? {
      return Err(OutOfBounds);
    }
    if count.value > MAX_RULES {
      return Err(Overflow);
    }
    var rules := DeserializeRules(s, start + 22, count.value);
    if rules.Err? {
      return Err(rules.error);
    }
    var p := rules.value.1;
    if p >= |s| {
      return Err(OutOfBounds);
    }
    if s[p] < 1 || s[p] > MAX_CUSTODY {
      return Err(Overflow);
    }
    var chain := DeserializeChain(s, p + 1, s[p]);
    if chain.Err? {
      return Err(chain.error);
    }
    var q := chain.value.1;
    var more := Read(s, q, 2);
    if more.None? {
      return Err(OutOfBounds);
    }
    if q + 2 + more.value > |s| {
      return Err(Overflow);
    }
    var c := Capability(network.value, timestamp.value, id.value, rules.value.0, s[p], chain.value.0);
    r := Ok((c, q + 2 + more.value - start));
  }

  // ----- what signatures cover

  const MARKER := 0x7f7f_7f7f_7f7f_7f7f

  /** The bytes that are signed: all but the chain of custody, between markers. */
  function SignedBytes(c: Capability): seq<byte>
    requires ValidCapability(c)
  {
    BigEndian(MARKER, 8) + (BigEndian(c.network, 8) + (BigEndian(c.timestamp, 8) + (BigEndian(c.id, 4) +
    (BigEndian(|c.rules|, 2) + SignedBody(c)))))
  }

  function SignedBody(c: Capability): seq<byte>
    requires ValidCapability(c)
  {
    EncodeRules(c.rules) + ([c.maxCustody] + (BigEndian(0, 2) + BigEndian(MARKER, 8)))
  }

  lemma SignedBack(s: seq<byte>, c: Capability)
    requires ValidCapability(c) && s == SignedBytes(c)
    ensures Read(s, 8, 8) == Some(c.network) && Read(s, 16, 8) == Some(c.timestamp) && Read(s, 24, 4) == Some(c.id)
    ensures Read(s, 28, 2) == Some(|c.rules|) && At(s, 30, SignedBody(c))
  {
    Pow256Two();
    Pow256Octets();
    hide Read, Pow256, BigEndian, SignedBody, ValidRule, ValidCustody;
    var body := SignedBody(c);
    assert At(s, 0, s);
    hide At;
    ReadHead(s, 0, MARKER, 8,
             BigEndian(c.network, 8) + (BigEndian(c.timestamp, 8) +
             (BigEndian(c.id, 4) + (BigEndian(|c.rules|, 2) + body))));
    ReadHead(s, 8, c.network, 8, BigEndian(c.timestamp, 8) + (BigEndian(c.id, 4) + (BigEndian(|c.rules|, 2) + body)));
    ReadHead(s, 16, c.timestamp, 8, BigEndian(c.id, 4) + (BigEndian(|c.rules|, 2) + body));
    ReadHead(s, 24, c.id, 4, BigEndian(|c.rules|, 2) + body);
    ReadHead(s, 28, |c.rules|, 2, body);
  }

  lemma SignedBodyBack(s: seq<byte>, p: nat, c: Capability)
    requires ValidCapability(c) && At(s, p, SignedBody(c))
    ensures var q := p + |EncodeRules(c.rules)|;
            DecodeRules(s, p, |c.rules|) == Ok((c.rules, q)) && q < |s| && s[q] == c.maxCustody
  {
    hide At, BigEndian, EncodeRules, DecodeRules, ValidRule, ValidCustody;
    var rest := BigEndian(0, 2) + BigEndian(MARKER, 8);
    AtSplit(s, p, EncodeRules(c.rules), [c.maxCustody] + rest);
    RulesBack(s, p, c.rules);
    AtSplit(s, p + |EncodeRules(c.rules)|, [c.maxCustody], rest);
    Bytes(s, p + |EncodeRules(c.rules)|, [c.maxCustody]);
  }

  /** A signature binds everything but the chain: capabilities with the same signed bytes differ in nothing else. */
  lemma SignatureBinds(c: Capability, d: Capability)
    requires ValidCapability(c) && ValidCapability(d) && SignedBytes(c) == SignedBytes(d)
    ensures c.(custody := d.custody) == d
  {
    hide SignedBytes, SignedBody, DecodeRules, EncodeRules, Read, At, ValidRule, ValidCustody;
    var s := SignedBytes(c);
    SignedBack(s, c);
    SignedBack(s, d);
    SignedBodyBack(s, 30, c);
    SignedBodyBack(s, 30, d);
  }

  /** The last recipient in the chain, 0 without one. */
  function IssuedTo(c: Capability): nat {
    if c.custody == [] then 0 else c.custody[|c.custody| - 1].to
  }

  /** The fixed slots of the chain: the links, and unused ones without recipient. */
  function Slots(chain: seq<Custody>): (s: seq<Custody>)
    requires |chain| <= MAX_CUSTODY
    ensures |s| == MAX_CUSTODY
  {
    chain + seq(MAX_CUSTODY - |chain|, _ => Custody(0, 0, NoSignature()))
  }

  /** The chain in the slots: up to the first without recipient. */
  function Used(slots: seq<Custody>): seq<Custody> {
    if slots == [] || slots[0].to == 0 then [] else [slots[0]] + Used(slots[1..])
  }

  lemma {:induction false} UsedSlots(chain: seq<Custody>, rest: seq<Custody>)
    requires (forall e :: e in chain ==> e.to != 0) && (rest != [] ==> rest[0].to == 0)
    ensures Used(chain + rest) == chain
  {
    if chain == [] {
      assert chain + rest == rest;
    } else {
      assert (chain + rest)[1..] == chain[1..] + rest;
      UsedSlots(chain[1..], rest);
    }
  }

  /** Signs the capability over to a recipient, in the first free slot. Without the secret it fails, and the new link stays
      unsigned. */
  method Sign(c: Capability, from: nat, secret: Option<seq<byte> -> seq<byte>>, to: nat)
    returns (ok: bool, signed: Capability)
    requires ValidCapability(c) && from < Pow256(ADDRESS_LENGTH) && to < Pow256(ADDRESS_LENGTH)
    requires secret.Some? ==> forall m :: |secret.value(m)| == SIGNATURE_LENGTH
    ensures ok <==> |c.custody| < c.maxCustody && secret.Some?
    ensures ValidCapability(signed) && SignedBytes(signed) == SignedBytes(c)
    ensures if |c.custody| == c.maxCustody || to == 0 then signed == c
            else
              && IssuedTo(signed) == to
              && signed == c.(custody := c.custody + [Custody(to, from, Signature(secret, signed))])
  {
    hide EncodeRules, BigEndian, ValidRule, Pow256, Used;
    ok, signed := false, c;
    var slots, i := Slots(c.custody), 0;
    while i < c.maxCustody && i < MAX_CUSTODY && slots[i].to != 0
      invariant 0 <= i <= |c.custody|
    {
      i := i + 1;
    }
    assert i == |c.custody| by {
      assert i < |c.custody| ==> slots[i] == c.custody[i] && ValidCustody(c.custody[i]);
    }
    if i < c.maxCustody && i < MAX_CUSTODY {
      ok := secret.Some?;
      var link := Custody(to, from, Signature(secret, c));
      SlotsUsed(c.custody, link);
      slots := slots[i := link];
      signed := c.(custody := Used(slots));
    }
  }

  lemma SlotsUsed(chain: seq<Custody>, link: Custody)
    requires |chain| < MAX_CUSTODY && forall e :: e in chain ==> e.to != 0
    ensures Used(Slots(chain)[|chain| := link]) == if link.to == 0 then chain else chain + [link]
  {
    var slots := Slots(chain)[|chain| := link];
    assert slots == chain + slots[|chain|..];
    if link.to == 0 {
      UsedSlots(chain, slots[|chain|..]);
    } else {
      assert slots == (chain + [link]) + slots[|chain| + 1..];
      UsedSlots(chain + [link], slots[|chain| + 1..]);
    }
  }

  function NoSignature(): seq<byte> {
    seq(SIGNATURE_LENGTH, _ => 0)
  }

  function Signature(secret: Option<seq<byte> -> seq<byte>>, c: Capability): seq<byte>
    requires ValidCapability(c)
  {
    if secret.Some? then secret.value(SignedBytes(c)) else NoSignature()
  }
}
