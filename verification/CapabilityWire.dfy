/** The wire form of capabilities, byte by byte. */
module CapabilityWire {
  import opened Common
  import opened Limbs
  import opened Buffer
  import opened Capability

  /** A rule of the type, with these fields, is written as these bytes. */
  predicate Written(t: byte, fields: seq<nat>, bytes: seq<byte>) {
    |fields| == |Layout(t)| && Size(Layout(t)) < 256 && EncodeRule(Rule(t, fields), []) == bytes
  }

  /** Rules of one field: addresses, VLAN id and ethertype, single bytes, MAC addresses, characteristics, probability. */
  lemma OneField(t: byte, v: nat)
    ensures t % 64 == 24 || t % 64 == 25 ==> Written(t, [v], [t, 5] + BigEndian(v, 5))
    ensures t % 64 == 26 || t % 64 == 37 ==> Written(t, [v], [t, 2] + BigEndian(v, 2))
    ensures t % 64 == 27 || t % 64 == 28 || t % 64 == 36 ==> Written(t, [v], [t, 1, v % 256])
    ensures t % 64 == 29 || t % 64 == 30 ==> Written(t, [v], [t, 6] + BigEndian(v, 6))
    ensures t % 64 == 41 ==> Written(t, [v], [t, 8] + BigEndian(v, 8))
    ensures t % 64 == 43 ==> Written(t, [v], [t, 4] + BigEndian(v, 4))
  {
    hide Written, BigEndian;
    if |Layout(t)| == 1 {
      Written1(t, Layout(t)[0], v);
    }
  }

  lemma Written1(t: byte, w: nat, v: nat)
    requires Layout(t) == [w] && w < 256
    ensures Written(t, [v], [t, w] + BigEndian(v, w))
    ensures w == 1 ==> [t, 1] + BigEndian(v, 1) == [t, 1, v % 256]
  {
    OneByte(v);
    Fields1(w, v);
    hide Layout, BigEndian, EncodeFields, Size;
  }

  lemma OneByte(v: nat)
    ensures BigEndian(v, 1) == [v % 256]
  {
  }

  lemma Fields1(w: nat, v: nat)
    ensures Size([w]) == w && EncodeFields([w], [v]) == BigEndian(v, w)
  {
    hide BigEndian;
    assert [w][1..] == [] && [v][1..] == [];
    assert BigEndian(v, w) + [] == BigEndian(v, w);
  }

  /** Rules of two: an IP address and its mask, a range of ports or sizes, a tag and its value. */
  lemma TwoFields(t: byte, v: nat, w: nat)
    ensures t % 64 == 31 || t % 64 == 32 ==> Written(t, [v, w], [t, 5] + BigEndian(v, 4) + [w % 256])
    ensures t % 64 == 33 || t % 64 == 34 ==> Written(t, [v, w], [t, 17] + BigEndian(v, 16) + [w % 256])
    ensures t % 64 == 39 || t % 64 == 40 || t % 64 == 42 ==>
              Written(t, [v, w], [t, 4] + BigEndian(v, 2) + BigEndian(w, 2))
    ensures 44 <= t % 64 <= 50 ==> Written(t, [v, w], [t, 8] + BigEndian(v, 4) + BigEndian(w, 4))
  {
    hide Written, BigEndian;
    OneByte(w);
    if |Layout(t)| == 2 {
      Written2(t, Layout(t)[0], Layout(t)[1], v, w);
    }
  }

  lemma Written2(t: byte, m: nat, n: nat, v: nat, w: nat)
    requires Layout(t) == [m, n] && m + n < 256
    ensures Written(t, [v, w], [t, m + n] + BigEndian(v, m) + BigEndian(w, n))
  {
    Fields2(m, n, v, w);
    hide Layout, BigEndian, EncodeFields, Size;
    assert [t, m + n] + BigEndian(v, m) + BigEndian(w, n) == [t, m + n] + (BigEndian(v, m) + BigEndian(w, n));
  }

  lemma Fields2(m: nat, n: nat, v: nat, w: nat)
    ensures Size([m, n]) == m + n && EncodeFields([m, n], [v, w]) == BigEndian(v, m) + BigEndian(w, n)
  {
    Fields1(n, w);
    hide BigEndian;
    assert [m, n][1..] == [n] && [v, w][1..] == [w];
  }

  /** Rules of three: where to forward to, type of service, ICMP. */
  lemma ThreeFields(t: byte, v: nat, w: nat, x: nat)
    ensures 2 <= t % 64 <= 4 ==> Written(t, [v, w, x], [t, 14] + BigEndian(v, 8) + BigEndian(w, 4) + BigEndian(x, 2))
    ensures t % 64 == 35 || t % 64 == 38 ==> Written(t, [v, w, x], [t, 3, v % 256, w % 256, x % 256])
  {
    hide Written, BigEndian;
    OneByte(v);
    OneByte(w);
    OneByte(x);
    if |Layout(t)| == 3 {
      Written3(t, Layout(t)[0], Layout(t)[1], Layout(t)[2], v, w, x);
    }
    assert [t, 3] + [v % 256] + [w % 256] + [x % 256] == [t, 3, v % 256, w % 256, x % 256];
  }

  lemma Written3(t: byte, l: nat, m: nat, n: nat, v: nat, w: nat, x: nat)
    requires Layout(t) == [l, m, n] && l + m + n < 256
    ensures Written(t, [v, w, x], [t, l + m + n] + BigEndian(v, l) + BigEndian(w, m) + BigEndian(x, n))
  {
    Fields3(l, m, n, v, w, x);
    hide Layout, BigEndian, EncodeFields, Size;
    Regroup([t, l + m + n], BigEndian(v, l), BigEndian(w, m), BigEndian(x, n));
  }

  lemma Regroup(a: seq<byte>, b: seq<byte>, c: seq<byte>, d: seq<byte>)
    ensures a + (b + (c + d)) + [] == a + b + c + d
  {
  }

  lemma Fields3(l: nat, m: nat, n: nat, v: nat, w: nat, x: nat)
    ensures Size([l, m, n]) == l + m + n
    ensures EncodeFields([l, m, n], [v, w, x]) == BigEndian(v, l) + (BigEndian(w, m) + BigEndian(x, n))
  {
    Fields2(m, n, w, x);
    hide BigEndian;
    assert [l, m, n][1..] == [m, n] && [v, w, x][1..] == [w, x];
  }

  /** Every other type has no fields. */
  lemma NoFields(t: byte)
    ensures t % 64 < 2 || 4 < t % 64 < 24 || 50 < t % 64 ==> Written(t, [], [t, 0])
  {
  }

  /** Rules are written one after the other. */
  lemma RulesWritten(rules: seq<Rule>)
    requires forall r :: r in rules ==> ValidRule(r)
    ensures rules == [] ==> EncodeRules(rules) == []
    ensures rules != [] ==>
              && |rules[0].fields| == |Layout(rules[0].t)| && Size(Layout(rules[0].t)) < 256
              && (forall r :: r in rules[1..] ==> ValidRule(r))
              && EncodeRules(rules) == EncodeRule(rules[0], []) + EncodeRules(rules[1..])
  {
    if rules == [] {
    } else {
      hide *;
      NextRule(rules, 0);
      assert rules[0..] == rules;
    }
  }

  // ----- reading a rule: the fields stand right after type and length, and the length says where the next rule is

  function Bytes1(s: seq<byte>, p: nat, w: nat): Result<(seq<Rule>, nat)>
    requires p + 1 < |s|
  {
    if p + 2 + w > |s| then Err(OutOfBounds)
    else Ok(([Rule(s[p], [FromBigEndian(s[p + 2..p + 2 + w])])], p + 2 + s[p + 1]))
  }

  function Bytes2(s: seq<byte>, p: nat, m: nat, n: nat): Result<(seq<Rule>, nat)>
    requires p + 1 < |s|
  {
    if p + 2 + m + n > |s| then Err(OutOfBounds)
    else
      Ok(([Rule(s[p], [FromBigEndian(s[p + 2..p + 2 + m]), FromBigEndian(s[p + 2 + m..p + 2 + m + n])])],
          p + 2 + s[p + 1]))
  }

  function Bytes3(s: seq<byte>, p: nat, l: nat, m: nat, n: nat): Result<(seq<Rule>, nat)>
    requires p + 1 < |s|
  {
    if p + 2 + l + m + n > |s| then Err(OutOfBounds)
    else
      Ok(([Rule(s[p], [FromBigEndian(s[p + 2..p + 2 + l]), FromBigEndian(s[p + 2 + l..p + 2 + l + m]),
                       FromBigEndian(s[p + 2 + l + m..p + 2 + l + m + n])])],
          p + 2 + s[p + 1]))
  }

  lemma RuleRead(s: seq<byte>, p: nat)
    requires p + 1 < |s|
    ensures s[p] % 64 == 24 || s[p] % 64 == 25 ==> DecodeRules(s, p, 1) == Bytes1(s, p, 5)
    ensures s[p] % 64 == 26 || s[p] % 64 == 37 ==> DecodeRules(s, p, 1) == Bytes1(s, p, 2)
    ensures s[p] % 64 == 27 || s[p] % 64 == 28 || s[p] % 64 == 36 ==> DecodeRules(s, p, 1) == Bytes1(s, p, 1)
    ensures s[p] % 64 == 29 || s[p] % 64 == 30 ==> DecodeRules(s, p, 1) == Bytes1(s, p, 6)
    ensures s[p] % 64 == 41 ==> DecodeRules(s, p, 1) == Bytes1(s, p, 8)
    ensures s[p] % 64 == 43 ==> DecodeRules(s, p, 1) == Bytes1(s, p, 4)
    ensures s[p] % 64 == 31 || s[p] % 64 == 32 ==> DecodeRules(s, p, 1) == Bytes2(s, p, 4, 1)
    ensures s[p] % 64 == 33 || s[p] % 64 == 34 ==> DecodeRules(s, p, 1) == Bytes2(s, p, 16, 1)
    ensures s[p] % 64 == 39 || s[p] % 64 == 40 || s[p] % 64 == 42 ==> DecodeRules(s, p, 1) == Bytes2(s, p, 2, 2)
    ensures 44 <= s[p] % 64 <= 50 ==> DecodeRules(s, p, 1) == Bytes2(s, p, 4, 4)
    ensures 2 <= s[p] % 64 <= 4 ==> DecodeRules(s, p, 1) == Bytes3(s, p, 8, 4, 2)
    ensures s[p] % 64 == 35 || s[p] % 64 == 38 ==> DecodeRules(s, p, 1) == Bytes3(s, p, 1, 1, 1)
    ensures s[p] % 64 < 2 || 4 < s[p] % 64 < 24 || 50 < s[p] % 64 ==>
              DecodeRules(s, p, 1) == Ok(([Rule(s[p], [])], p + 2 + s[p + 1]))
  {
    var layout := Layout(s[p]);
    DecodeSingle(s, p);
    if |layout| == 1 {
      assert layout == [layout[0]];
      Decode1(s, p, layout[0]);
    } else if |layout| == 2 {
      assert layout == [layout[0], layout[1]];
      Decode2(s, p, layout[0], layout[1]);
    } else if |layout| == 3 {
      assert layout == [layout[0], layout[1], layout[2]];
      Decode3(s, p, layout[0], layout[1], layout[2]);
    }
    hide DecodeRules, DecodeFields, Bytes1, Bytes2, Bytes3;
  }

  function Single(s: seq<byte>, p: nat, fields: Result<seq<nat>>): Result<(seq<Rule>, nat)>
    requires p + 1 < |s|
  {
    match fields
    case Err(e) => Err(e)
    case Ok(v) => Ok(([Rule(s[p], v)], p + 2 + s[p + 1]))
  }

  lemma DecodeSingle(s: seq<byte>, p: nat)
    requires p + 1 < |s|
    ensures DecodeRules(s, p, 1) == Single(s, p, DecodeFields(s, p + 2, Layout(s[p])))
  {
    hide DecodeFields, Layout;
    var next := DecodeRules(s, p + 2 + s[p + 1], 0);
    assert next == Ok(([], p + 2 + s[p + 1]));
    assert forall r: Rule :: [r] + [] == [r];
  }

  lemma Decode1(s: seq<byte>, p: nat, w: nat)
    requires p + 1 < |s|
    ensures Single(s, p, DecodeFields(s, p + 2, [w])) == Bytes1(s, p, w)
  {
    hide FromBigEndian;
    Widths1(s, p + 2, w);
  }

  lemma Widths1(s: seq<byte>, p: nat, w: nat)
    ensures DecodeFields(s, p, [w]) == if p + w > |s| then Err(OutOfBounds) else Ok([FromBigEndian(s[p..p + w])])
  {
    hide FromBigEndian;
    assert [w][1..] == [] && DecodeFields(s, p + w, []) == Ok([]);
    if p + w <= |s| {
      assert [FromBigEndian(s[p..p + w])] + [] == [FromBigEndian(s[p..p + w])];
    }
  }

  lemma Decode2(s: seq<byte>, p: nat, m: nat, n: nat)
    requires p + 1 < |s|
    ensures Single(s, p, DecodeFields(s, p + 2, [m, n])) == Bytes2(s, p, m, n)
  {
    hide FromBigEndian;
    Widths2(s, p + 2, m, n);
  }

  lemma Widths2(s: seq<byte>, p: nat, m: nat, n: nat)
    ensures DecodeFields(s, p, [m, n]) ==
            if p + m + n > |s| then Err(OutOfBounds)
            else Ok([FromBigEndian(s[p..p + m]), FromBigEndian(s[p + m..p + m + n])])
  {
    Widths1(s, p + m, n);
    hide FromBigEndian;
    assert [m, n][1..] == [n];
    if p + m + n <= |s| {
      var v, w := FromBigEndian(s[p..p + m]), FromBigEndian(s[p + m..p + m + n]);
      assert [v] + [w] == [v, w];
    }
  }

  lemma Decode3(s: seq<byte>, p: nat, l: nat, m: nat, n: nat)
    requires p + 1 < |s|
    ensures Single(s, p, DecodeFields(s, p + 2, [l, m, n])) == Bytes3(s, p, l, m, n)
  {
    hide FromBigEndian;
    Widths2(s, p + 2 + l, m, n);
    assert [l, m, n][1..] == [m, n];
    if p + 2 + l + m + n <= |s| {
      var q := p + 2 + l;
      var u, v, w := FromBigEndian(s[p + 2..q]), FromBigEndian(s[q..q + m]), FromBigEndian(s[q + m..q + m + n]);
      assert [u] + [v, w] == [u, v, w];
    }
  }

  /** Rules are read one after the other, while more are expected and bytes are left. */
  lemma RulesRead(s: seq<byte>, p: nat, max: nat)
    ensures max == 0 || p >= |s| ==> DecodeRules(s, p, max) == Ok(([], p))
    ensures max > 0 && p + 1 == |s| ==> DecodeRules(s, p, max) == Err(OutOfBounds)
    ensures max > 0 && p + 1 < |s| ==>
              var one, rest := DecodeRules(s, p, 1), DecodeRules(s, p + 2 + s[p + 1], max - 1);
              DecodeRules(s, p, max) ==
              if one.Err? then one else if rest.Err? then rest else Ok((one.value.0 + rest.value.0, rest.value.1))
  {
    if max > 0 && p + 1 < |s| {
      DecodeSingle(s, p);
    }
    hide DecodeFields, Layout;
  }

  // ----- the whole capability

  lemma CapabilityWritten(c: Capability)
    requires ValidCapability(c)
    ensures Encode(c) ==
            BigEndian(c.network, 8) + BigEndian(c.timestamp, 8) + BigEndian(c.id, 4) + BigEndian(|c.rules|, 2) +
            EncodeRules(c.rules) + [c.maxCustody] + EncodeChain(c.custody) + [0, 0]
  {
    NoBytes();
    hide BigEndian, EncodeRules, EncodeChain, ValidRule, ValidCustody;
    var rules, chain := EncodeRules(c.rules), EncodeChain(c.custody);
    var a, b, d, e := BigEndian(c.network, 8), BigEndian(c.timestamp, 8), BigEndian(c.id, 4), BigEndian(|c.rules|, 2);
    var body := EncodeBody(c);
    assert body == rules + [c.maxCustody] + chain + [0, 0];
    hide EncodeBody;
    assert a + (b + (d + (e + body))) == a + b + d + e + body;
    assert a + b + d + e + (rules + [c.maxCustody] + chain + [0, 0]) ==
           a + b + d + e + rules + [c.maxCustody] + chain + [0, 0];
  }

  lemma NoBytes()
    ensures BigEndian(0, 2) == [0, 0] && BigEndian(0, 5) == [0, 0, 0, 0, 0] && BigEndian(96, 2) == [0, 96]
  {
    assert BigEndian(0, 1) == [0] && BigEndian(0, 3) == [0, 0, 0] && BigEndian(0, 4) == [0, 0, 0, 0];
  }

  /** Each link of the chain is its two addresses, signature type 1, length 96 and the signature; a zero address ends it. */
  lemma ChainWritten(chain: seq<Custody>)
    ensures chain == [] ==> EncodeChain(chain) == [0, 0, 0, 0, 0]
    ensures chain != [] ==>
              EncodeChain(chain) ==
              BigEndian(chain[0].to, 5) + BigEndian(chain[0].from, 5) + [1, 0, 96] + chain[0].signature +
              EncodeChain(chain[1..])
  {
    NoBytes();
    if chain != [] {
      hide BigEndian;
      var to, from, sig := BigEndian(chain[0].to, 5), BigEndian(chain[0].from, 5), chain[0].signature;
      assert EncodeCustody(chain[0]) == to + (from + ([1] + ([0, 96] + sig)));
      assert to + (from + ([1] + ([0, 96] + sig))) == to + from + [1, 0, 96] + sig;
    }
  }

  /** What is signed stands between eight 0x7f bytes and eight more, and ends without chain or additional fields. */
  lemma SignedWritten(c: Capability)
    requires ValidCapability(c)
    ensures var marker := [0x7f, 0x7f, 0x7f, 0x7f, 0x7f, 0x7f, 0x7f, 0x7f];
            SignedBytes(c) ==
            marker + BigEndian(c.network, 8) + BigEndian(c.timestamp, 8) + BigEndian(c.id, 4) + BigEndian(|c.rules|, 2) +
            EncodeRules(c.rules) + [c.maxCustody] + [0, 0] + marker
  {
    NoBytes();
    MarkerBytes();
    hide BigEndian, EncodeRules, ValidRule, ValidCustody;
    var marker, rules := BigEndian(MARKER, 8), EncodeRules(c.rules);
    var a, b, d, e := BigEndian(c.network, 8), BigEndian(c.timestamp, 8), BigEndian(c.id, 4), BigEndian(|c.rules|, 2);
    var body := SignedBody(c);
    assert body == rules + [c.maxCustody] + [0, 0] + marker;
    hide SignedBody;
    assert marker + (a + (b + (d + (e + body)))) == marker + a + b + d + e + body;
    assert marker + a + b + d + e + (rules + [c.maxCustody] + [0, 0] + marker) ==
           marker + a + b + d + e + rules + [c.maxCustody] + [0, 0] + marker;
  }

  lemma MarkerBytes()
    ensures BigEndian(MARKER, 8) == [0x7f, 0x7f, 0x7f, 0x7f, 0x7f, 0x7f, 0x7f, 0x7f]
  {
    assert BigEndian(0x7f7f, 2) == [0x7f, 0x7f] by {
      assert BigEndian(0x7f, 1) == [0x7f];
    }
    assert BigEndian(0x7f7f_7f7f, 4) == [0x7f, 0x7f, 0x7f, 0x7f] by {
      assert BigEndian(0x7f_7f7f, 3) == [0x7f, 0x7f, 0x7f];
    }
    assert BigEndian(0x7f7f_7f7f_7f7f, 6) == [0x7f, 0x7f, 0x7f, 0x7f, 0x7f, 0x7f] by {
      assert BigEndian(0x7f_7f7f_7f7f, 5) == [0x7f, 0x7f, 0x7f, 0x7f, 0x7f];
    }
    assert BigEndian(0x7f_7f7f_7f7f_7f7f, 7) == [0x7f, 0x7f, 0x7f, 0x7f, 0x7f, 0x7f, 0x7f];
  }

  /** What a read capability must have been: 22 bytes of header, at most 64 rules, a custody limit of 1 to 7 after them, no
      more links than that, and a length of additional fields that are all there and are skipped. */
  lemma CapabilityRead(s: seq<byte>, p: nat)
    ensures p + 22 > |s| ==> Decode(s, p) == Err(OutOfBounds)
    ensures p + 22 <= |s| && FromBigEndian(s[p + 20..p + 22]) > 64 ==> Decode(s, p) == Err(Overflow)
    ensures Decode(s, p).Ok? ==>
              && p + 22 <= |s|
              && var (c, size) := Decode(s, p).value; var rules := DecodeRules(s, p + 22, FromBigEndian(s[p + 20..p + 22]));
                 && c.network == FromBigEndian(s[p..p + 8]) && c.timestamp == FromBigEndian(s[p + 8..p + 16])
                 && c.id == FromBigEndian(s[p + 16..p + 20])
                 && rules.Ok? && c.rules == rules.value.0 && |c.rules| <= 64
                 && var q := rules.value.1;
                    && q < |s| && c.maxCustody == s[q] && 1 <= c.maxCustody <= 7
                    && var chain := DecodeChain(s, q + 1, 0, c.maxCustody);
                       && chain.Ok? && c.custody == chain.value.0 && |c.custody| <= c.maxCustody
                       && var end := chain.value.1;
                          && end + 2 <= |s| && p + size == end + 2 + FromBigEndian(s[end..end + 2]) <= |s|
  {
    hide FromBigEndian, DecodeRules, DecodeChain;
  }

  /** How a link is read: a zero address ends the chain, and one too many is an error; the signature stands after both
      addresses, its type and its length, and one of an unknown type is skipped by its length. */
  lemma LinkRead(s: seq<byte>, p: nat, i: nat, max: nat)
    requires i <= max && p + 13 <= |s|
    ensures var to, from := FromBigEndian(s[p..p + 5]), FromBigEndian(s[p + 5..p + 10]);
            var t, len, r := s[p + 10], FromBigEndian(s[p + 11..p + 13]), DecodeChain(s, p, i, max);
            && (to == 0 ==> r == Ok(([], p + 5)))
            && (to != 0 && i == max ==> r == Err(Overflow))
            && (to != 0 && i < max && t == 1 && len != 96 ==> r == Err(BadToken))
            && (to != 0 && i < max && t == 1 && len == 96 && p + 109 > |s| ==> r == Err(OutOfBounds))
            && (to != 0 && i < max && t == 1 && len == 96 && p + 109 <= |s| ==>
                  r == Prepend([Custody(to, from, s[p + 13..p + 109])], DecodeChain(s, p + 109, i + 1, max)))
            && (to != 0 && i < max && t != 1 ==>
                  r == Prepend([Custody(to, from, seq(96, _ => 0))], DecodeChain(s, p + 13 + len, i + 1, max)))
  {
    hide FromBigEndian;
  }
}
