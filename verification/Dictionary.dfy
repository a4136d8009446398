/** The packed key=value text store with escaped binary values. */
module Dictionary {
  import opened Common

  const LF: byte := 10
  const CR: byte := 13
  const EQUALS: byte := 61
  const BACKSLASH: byte := 92

  datatype Entry = Entry(key: seq<byte>, value: seq<byte>)

  predicate Special(c: byte) {
    c == 0 || c == CR || c == LF || c == BACKSLASH || c == EQUALS
  }

  /** The letter that stands for a special byte after a backslash: 0, r, n, \ or e. */
  function EscapeLetter(c: byte): byte {
    if c == 0 then 48 else if c == CR then 114 else if c == LF then 110 else if c == EQUALS then 101 else c
  }

  function UnescapeLetter(c: byte): byte {
    if c == 114 then CR else if c == 110 then LF else if c == 48 then 0 else if c == 101 then EQUALS else c
  }

  function EscapeByte(c: byte): seq<byte> {
    if Special(c) then [BACKSLASH, EscapeLetter(c)] else [c]
  }

  function Escape(v: seq<byte>): seq<byte> {
    if v == [] then [] else EscapeByte(v[0]) + Escape(v[1..])
  }

  function Unescape(s: seq<byte>): seq<byte> {
    if s == [] then []
    else if s[0] != BACKSLASH then [s[0]] + Unescape(s[1..])
    else if |s| == 1 then []
    else [UnescapeLetter(s[1])] + Unescape(s[2..])
  }

  /** Every binary value survives escaping and unescaping. */
  lemma {:induction false} UnescapeEscape(v: seq<byte>)
    ensures Unescape(Escape(v)) == v
  {
    if v == [] {
    } else {
      UnescapeEscape(v[1..]);
      var e, r := EscapeByte(v[0]), Escape(v[1..]);
      assert (e + r)[|e|..] == r;
    }
  }

  /** Escaped text has no terminator, line break or equals sign. */
  lemma {:induction false} EscapeClean(v: seq<byte>)
    ensures LegalKey(Escape(v))
  {
    if v == [] {
    } else {
      EscapeClean(v[1..]);
    }
  }

  /** The escapes, written out: 0, CR, LF, the equals sign and the backslash become two bytes, every other byte stays. */
  lemma EscapesAre(c: byte, rest: seq<byte>)
    ensures Escape([]) == [] && Unescape([]) == [] && Unescape([92]) == []
    ensures Escape([c] + rest) ==
            (if c == 0 then [92, 48] else if c == 13 then [92, 114] else if c == 10 then [92, 110]
             else if c == 61 then [92, 101] else if c == 92 then [92, 92] else [c]) + Escape(rest)
    ensures c != 92 ==> Unescape([c] + rest) == [c] + Unescape(rest)
    ensures Unescape([92, c] + rest) ==
            [if c == 48 then 0 else if c == 114 then 13 else if c == 110 then 10 else if c == 101 then 61 else c] +
            Unescape(rest)
  {
    assert ([c] + rest)[1..] == rest && ([92, c] + rest)[2..] == rest;
  }

  // ----- the text and its entries

  /** Keys without nulls, CR, LF and equals signs, as the store demands. */
  predicate LegalKey(key: seq<byte>) {
    forall i :: 0 <= i < |key| ==> key[i] != 0 && key[i] != LF && key[i] != CR && key[i] != EQUALS
  }

  function Line(e: Entry): seq<byte> {
    e.key + [EQUALS] + Escape(e.value)
  }

  /** The lines of the entries, separated by line feeds. */
  function Render(es: seq<Entry>): seq<byte> {
    if es == [] then []
    else if |es| == 1 then Line(es[0])
    else Line(es[0]) + [LF] + Render(es[1..])
  }

  function FirstValue(es: seq<Entry>, key: seq<byte>): Option<seq<byte>> {
    if es == [] then None
    else if es[0].key == key then Some(es[0].value)
    else FirstValue(es[1..], key)
  }

  /** A text is key, equals sign and escaped value of each entry, with a line feed between them. */
  lemma RenderIs(e: Entry, es: seq<Entry>)
    ensures Render([]) == [] && Render([e]) == e.key + [61] + Escape(e.value)
    ensures es != [] ==> Render([e] + es) == e.key + [61] + Escape(e.value) + [10] + Render(es)
  {
    hide Escape;
    assert ([e] + es)[1..] == es;
  }

  /** The first value is that of the first entry with the key. */
  lemma {:induction false} FirstValueIs(es: seq<Entry>, key: seq<byte>)
    ensures FirstValue(es, key).None? <==> forall i :: 0 <= i < |es| ==> es[i].key != key
    ensures forall i :: 0 <= i < |es| && es[i].key == key && (forall j :: 0 <= j < i ==> es[j].key != key) ==>
              FirstValue(es, key) == Some(es[i].value)
  {
    if es == [] {
    } else if es[0].key == key {
    } else {
      var rest := es[1..];
      FirstValueIs(rest, key);
      assert forall i :: 0 < i < |es| ==> es[i] == rest[i - 1];
      forall i | 0 <= i < |es| && es[i].key == key && (forall j :: 0 <= j < i ==> es[j].key != key)
        ensures FirstValue(es, key) == Some(es[i].value)
      {
        assert rest[i - 1] == es[i];
        assert forall j :: 0 <= j < i - 1 ==> rest[j].key != key;
      }
    }
  }

  // ----- what get computes on a text

  predicate Break(c: byte) { c == LF || c == CR }

  /** The length of the longest common prefix. */
  function Match(s: seq<byte>, key: seq<byte>): (n: nat)
    ensures n <= |s| && n <= |key|
  {
    if s == [] || key == [] || s[0] != key[0] then 0 else 1 + Match(s[1..], key[1..])
  }

  /** The length of the first line. */
  function LineLength(s: seq<byte>): (n: nat)
    ensures n <= |s|
  {
    if s == [] || Break(s[0]) then 0 else 1 + LineLength(s[1..])
  }

  function FirstLine(s: seq<byte>): seq<byte> {
    s[..LineLength(s)]
  }

  /** Whether the text starts with the key and an equals sign. */
  predicate Hits(s: seq<byte>, key: seq<byte>) {
    var m := Match(s, key);
    m == |key| && m < |s| && s[m] == EQUALS
  }

  /** Where the line ends, sought from where the key stops matching. */
  function LineEnd(s: seq<byte>, key: seq<byte>): (n: nat)
    ensures n <= |s|
  {
    var m := Match(s, key);
    m + LineLength(s[m..])
  }

  /** Looks the key up line by line. */
  function Lookup(s: seq<byte>, key: seq<byte>): Option<seq<byte>>
    decreases |s|
  {
    if s == [] then None
    else if Hits(s, key) then Some(Unescape(FirstLine(s[|key| + 1..])))
    else if LineEnd(s, key) < |s| then Lookup(s[LineEnd(s, key) + 1..], key)
    else None
  }

  lemma {:induction false} LineLengthClean(s: seq<byte>, t: seq<byte>)
    requires (forall i :: 0 <= i < |s| ==> !Break(s[i])) && (t == [] || Break(t[0]))
    ensures LineLength(s + t) == |s|
  {
    if s == [] {
      assert s + t == t;
    } else {
      assert (s + t)[1..] == s[1..] + t;
      LineLengthClean(s[1..], t);
    }
  }

  /** A key that is not the line's key does not match up to the equals sign. */
  lemma {:induction false} MatchOther(k: seq<byte>, rest: seq<byte>, key: seq<byte>)
    requires LegalKey(k) && LegalKey(key) && rest != [] && rest[0] == EQUALS
    ensures var s := k + rest; var m := Match(s, key);
            m <= |k| && ((m == |key| && s[m] == EQUALS) <==> k == key)
  {
    var s := k + rest;
    if k == [] {
      assert s == rest;
    } else if key != [] && k[0] == key[0] {
      assert s[1..] == k[1..] + rest;
      MatchOther(k[1..], rest, key[1..]);
      assert k == [k[0]] + k[1..] && key == [key[0]] + key[1..];
    }
  }

  /** On a rendered text, lookup finds the first value added under the key. */
  lemma {:induction false} LookupRender(es: seq<Entry>, key: seq<byte>)
    requires LegalKey(key) && forall e :: e in es ==> LegalKey(e.key)
    ensures Lookup(Render(es), key) == FirstValue(es, key)
  {
    if es == [] {
    } else {
      var e := es[0];
      var tail := if |es| == 1 then [] else [LF] + Render(es[1..]);
      var s := Render(es);
      assert s == Line(e) + tail;
      LookupLine(e, tail, key);
      if e.key != key && |es| > 1 {
        LookupRender(es[1..], key);
        assert tail[1..] == Render(es[1..]);
      }
    }
  }

  lemma LookupLine(e: Entry, tail: seq<byte>, key: seq<byte>)
    requires LegalKey(key) && LegalKey(e.key) && (tail == [] || tail[0] == LF)
    ensures Lookup(Line(e) + tail, key)
         == if e.key == key then Some(e.value) else if tail == [] then None else Lookup(tail[1..], key)
  {
    if e.key == key {
      LookupFound(e, tail);
    } else {
      LookupSkips(e, tail, key);
    }
  }

  lemma LookupFound(e: Entry, tail: seq<byte>)
    requires LegalKey(e.key) && (tail == [] || tail[0] == LF)
    ensures Lookup(Line(e) + tail, e.key) == Some(e.value)
  {
    hide Match, LineLength, Escape, Unescape;
    var s, esc, m := Line(e) + tail, Escape(e.value), |e.key|;
    var rest := [EQUALS] + esc + tail;
    assert s == e.key + rest;
    MatchOther(e.key, rest, e.key);
    EscapeClean(e.value);
    assert s[m + 1..] == esc + tail;
    LineLengthClean(esc, tail);
    assert (esc + tail)[..|esc|] == esc;
    UnescapeEscape(e.value);
  }

  lemma LookupSkips(e: Entry, tail: seq<byte>, key: seq<byte>)
    requires LegalKey(key) && LegalKey(e.key) && (tail == [] || tail[0] == LF) && e.key != key
    ensures Lookup(Line(e) + tail, key) == if tail == [] then None else Lookup(tail[1..], key)
  {
    hide Match, LineLength, Escape, Lookup;
    var s, esc := Line(e) + tail, Escape(e.value);
    var rest := [EQUALS] + esc + tail;
    assert s == e.key + rest;
    MatchOther(e.key, rest, key);
    EscapeClean(e.value);
    var m := Match(s, key);
    var line := e.key[m..] + [EQUALS] + esc;
    assert s[m..] == line + tail;
    LineLengthClean(line, tail);
    var n := m + |line|;
    assert n == |Line(e)| && !Hits(s, key) && LineEnd(s, key) == n;
    LookupNext(s, key);
    if tail != [] {
      assert s[n + 1..] == tail[1..];
    }
  }

  // ----- any text, not only one that was rendered

  lemma {:induction false} MatchAll(s: seq<byte>, key: seq<byte>)
    ensures s[..Match(s, key)] == key[..Match(s, key)]
    ensures |key| <= |s| && s[..|key|] == key ==> Match(s, key) == |key|
  {
    if s == [] || key == [] || s[0] != key[0] {
      assert s != [] && key != [] && |key| <= |s| ==> s[..|key|][0] == s[0];
    } else {
      MatchAll(s[1..], key[1..]);
      var m := Match(s[1..], key[1..]);
      assert s[..m + 1] == [s[0]] + s[1..][..m] && key[..m + 1] == [key[0]] + key[1..][..m];
      if |key| <= |s| && s[..|key|] == key {
        assert s[1..][..|key| - 1] == s[..|key|][1..];
      }
    }
  }

  /** Looking up in any text goes line by line, where both LF and CR end a line: a line that starts with the key and an
      equals sign gives the unescaped rest of it, and any other line is passed over. */
  lemma LookupText(line: seq<byte>, tail: seq<byte>, key: seq<byte>)
    requires LegalKey(key) && (forall i :: 0 <= i < |line| ==> line[i] != 10 && line[i] != 13)
    requires tail == [] || tail[0] == 10 || tail[0] == 13
    ensures Lookup(line + tail, key) ==
            if |key| < |line| && line[..|key|] == key && line[|key|] == 61 then Some(Unescape(line[|key| + 1..]))
            else if tail == [] then None
            else Lookup(tail[1..], key)
  {
    hide Unescape, Lookup, Match, LineLength, LegalKey, Hits, LineEnd;
    var s := line + tail;
    if s == [] {
      LookupEmpty(key);
    } else {
      MatchStays(line, tail, key);
      PrefixHits(line, tail, key);
      if Hits(s, key) {
        LookupHit(s, key);
        FirstLineRest(line, tail, |key| + 1);
      } else {
        LookupNext(s, key);
        EndOfLine(line, tail, key);
        if tail != [] {
          assert s[|line| + 1..] == tail[1..];
        }
      }
    }
  }

  lemma LookupHit(s: seq<byte>, key: seq<byte>)
    requires Hits(s, key)
    ensures |key| < |s| && Lookup(s, key) == Some(Unescape(FirstLine(s[|key| + 1..])))
  {
    hide FirstLine, Unescape;
  }

  lemma MatchStays(line: seq<byte>, tail: seq<byte>, key: seq<byte>)
    requires LegalKey(key) && (tail == [] || tail[0] == 10 || tail[0] == 13)
    ensures Match(line + tail, key) <= |line|
  {
    hide Match;
    if Match(line + tail, key) > |line| {
      MatchedAt(line + tail, key, |line|);
    }
  }

  lemma MatchedAt(s: seq<byte>, key: seq<byte>, i: nat)
    requires i < Match(s, key)
    ensures s[i] == key[i]
  {
    MatchAll(s, key);
    assert s[..Match(s, key)][i] == s[i];
  }

  lemma FirstLineRest(line: seq<byte>, tail: seq<byte>, k: nat)
    requires k <= |line| && (forall i :: 0 <= i < |line| ==> line[i] != 10 && line[i] != 13)
    requires tail == [] || tail[0] == 10 || tail[0] == 13
    ensures FirstLine((line + tail)[k..]) == line[k..]
  {
    assert (line + tail)[k..] == line[k..] + tail;
    LineLengthClean(line[k..], tail);
  }

  lemma EndOfLine(line: seq<byte>, tail: seq<byte>, key: seq<byte>)
    requires Match(line + tail, key) <= |line| && (forall i :: 0 <= i < |line| ==> line[i] != 10 && line[i] != 13)
    requires tail == [] || tail[0] == 10 || tail[0] == 13
    ensures LineEnd(line + tail, key) == |line|
  {
    hide Match, LineLength;
    var m := Match(line + tail, key);
    assert (line + tail)[m..] == line[m..] + tail;
    LineLengthClean(line[m..], tail);
  }

  lemma PrefixHits(line: seq<byte>, tail: seq<byte>, key: seq<byte>)
    requires Match(line + tail, key) <= |line| && (tail == [] || tail[0] != 61)
    ensures Hits(line + tail, key) <==> |key| < |line| && line[..|key|] == key && line[|key|] == 61
  {
    var s := line + tail;
    MatchAll(s, key);
    hide Match;
    if |key| <= |line| {
      assert s[..|key|] == line[..|key|];
      assert key[..|key|] == key;
    }
  }

  // ----- the store

  lemma {:induction false} RenderAppend(es: seq<Entry>, e: Entry)
    ensures Render(es + [e]) == Render(es) + (if es == [] then [] else [LF]) + Line(e)
  {
    hide Line;
    if es == [] {
      assert es + [e] == [e];
    } else {
      RenderAppend(es[1..], e);
      assert (es + [e])[1..] == es[1..] + [e] && (es + [e])[0] == es[0];
      Regroup(Line(es[0]), Render(es[1..]), Line(e));
    }
  }

  lemma Regroup(a: seq<byte>, b: seq<byte>, c: seq<byte>)
    ensures a + [LF] + (b + [LF] + c) == (a + [LF] + b) + [LF] + c
    ensures a + [LF] + (b + [] + c) == (a + [LF] + b) + c
  {
  }

  /** The text of legal entries has no terminator in it, and is empty only without entries. */
  lemma {:induction false} RenderClean(es: seq<Entry>)
    requires forall e :: e in es ==> LegalKey(e.key)
    ensures forall i :: 0 <= i < |Render(es)| ==> Render(es)[i] != 0
    ensures Render(es) == [] <==> es == []
  {
    if es == [] {
    } else {
      LineClean(es[0]);
      if |es| > 1 {
        RenderClean(es[1..]);
      }
    }
  }

  lemma LineClean(e: Entry)
    requires LegalKey(e.key)
    ensures Line(e) != [] && forall i :: 0 <= i < |Line(e)| ==> Line(e)[i] != 0
  {
    EscapeClean(e.value);
  }

  class Dictionary {
    var d: array<byte>

    /** The successfully added entries, in order. */
    ghost var es: seq<Entry>

    ghost predicate Valid()
      reads this, d
    {
      && (forall e :: e in es ==> LegalKey(e.key))
      && |Render(es)| < d.Length
      && d[..|Render(es)|] == Render(es)
      && d[|Render(es)|] == 0
    }

    constructor (capacity: nat)
      requires capacity > 0
      ensures Valid() && es == [] && fresh(d) && d.Length == capacity
    {
      d := new byte[capacity](_ => 0);
      es := [];
    }

    /** Writes bytes from position j on, and gives up as soon as the buffer is full. */
    method Append(j: nat, bytes: seq<byte>) returns (ok: bool, j': nat)
      requires j < d.Length
      modifies d
      ensures ok <==> j + |bytes| < d.Length
      ensures ok ==> j' == j + |bytes| && d[..j'] == old(d[..j]) + bytes
      ensures forall i :: 0 <= i <= j ==> d[..i] == old(d[..i])
    {
      j' := j;
      for k := 0 to |bytes|
        invariant j' == j + k < d.Length
        invariant d[..j'] == old(d[..j]) + bytes[..k]
      {
        d[j'] := bytes[k];
        j' := j' + 1;
        assert d[..j'] == old(d[..j]) + bytes[..k + 1];
        if j' == d.Length {
          return false, j';
        }
      }
      ok := true;
    }

    /** Appends key=value; without enough room the text stays as it was. */
    method Add(key: seq<byte>, value: seq<byte>) returns (ok: bool)
      requires Valid() && LegalKey(key)
      modifies this, d
      ensures Valid() && d == old(d)
      ensures ok <==> |Render(old(es) + [Entry(key, value)])| < d.Length
      ensures es == if ok then old(es) + [Entry(key, value)] else old(es)
    {
      hide Render, Line;
      ghost var text := Render(es);
      RenderClean(es);
      RenderAppend(es, Entry(key, value));
      var i := 0;
      while d[i] != 0
        invariant 0 <= i <= |text|
        decreases |text| - i
      {
        i := i + 1;
      }
      FirstZero(text, d[..|text| + 1], i);
      var j: nat;
      ok, j := AppendLine(i, key, value);
      if ok {
        d[j] := 0;
        es := es + [Entry(key, value)];
      } else {
        d[i] := 0;
      }
    }

    /** Everything add writes after position i: separator, key, equals sign, escaped value. */
    method AppendLine(i: nat, key: seq<byte>, value: seq<byte>) returns (ok: bool, j: nat)
      requires i < d.Length
      modifies d
      ensures var line := (if i == 0 then [] else [LF]) + Line(Entry(key, value));
              && (ok <==> i + |line| < d.Length)
              && (ok ==> j == i + |line| && d[..j] == old(d[..i]) + line)
              && d[..i] == old(d[..i])
    {
      hide Escape;
      ghost var text, sep := d[..i], if i == 0 then [] else [LF];
      ok, j := true, i;
      if i > 0 {
        ok, j := Append(i, [LF]);
        if !ok {
          return;
        }
      }
      assert d[..j] == text + sep;
      ok, j := Append(j, key);
      if !ok {
        return;
      }
      ok, j := Append(j, [EQUALS]);
      if !ok {
        return;
      }
      ok, j := AppendValue(j, value);
      Flatten(text, sep, key, Escape(value));
    }

    method AppendValue(i: nat, value: seq<byte>) returns (ok: bool, j: nat)
      requires i < d.Length
      modifies d
      ensures ok <==> i + |Escape(value)| < d.Length
      ensures ok ==> j == i + |Escape(value)| && d[..j] == old(d[..i]) + Escape(value)
      ensures forall k :: 0 <= k <= i ==> d[..k] == old(d[..k])
    {
      hide Escape;
      ok, j := true, i;
      assert Escape(value[..0]) == [] by { EmptyEscape(); assert value[..0] == []; }
      for k := 0 to |value|
        invariant ok
        invariant i <= j < d.Length && d[..j] == old(d[..i]) + Escape(value[..k])
      {
        EscapeNext(value, k);
        ok, j := Append(j, EscapeByte(value[k]));
        if !ok {
          return;
        }
      }
      assert value[..|value|] == value;
    }

    /** The text s, free of terminators, stands at the front of the buffer. */
    ghost predicate Holds(s: seq<byte>)
      reads this, d
    {
      && |s| < d.Length && d[..|s|] == s && d[|s|] == 0
      && forall i :: 0 <= i < |s| ==> s[i] != 0
    }

    /** Advances over the bytes that agree with the key. */
    method SkipKey(p: nat, key: seq<byte>, ghost s: seq<byte>) returns (q: nat)
      requires Holds(s) && p <= |s|
      requires forall i :: 0 <= i < |key| ==> key[i] != 0
      ensures q == p + Match(s[p..], key)
    {
      q := p;
      while q - p < |key| && d[q] != 0 && d[q] == key[q - p]
        invariant p <= q <= |s| && q - p <= |key|
        invariant p + Match(s[p..], key) == q + Match(s[q..], key[q - p..])
        decreases |s| - q
      {
        assert s[q..][1..] == s[q + 1..] && key[q - p..][1..] == key[q - p + 1..];
        q := q + 1;
      }
    }

    /** Advances to the end of the line. */
    method SkipLine(p: nat, ghost s: seq<byte>) returns (q: nat)
      requires Holds(s) && p <= |s|
      ensures q == p + LineLength(s[p..])
    {
      q := p;
      while d[q] != 0 && d[q] != CR && d[q] != LF
        invariant p <= q <= |s|
        invariant p + LineLength(s[p..]) == q + LineLength(s[q..])
        decreases |s| - q
      {
        assert s[q..][1..] == s[q + 1..];
        q := q + 1;
      }
    }

    /** Unescapes the rest of the line into dest, as far as it fits. */
    method CopyValue(start: nat, dest: array<byte>, ghost s: seq<byte>) returns (n: nat)
      requires Holds(s) && start <= |s| && dest != d && dest.Length > 0
      modifies dest
      ensures IsCopy(Unescape(FirstLine(s[start..])), dest[..], n)
    {
      hide Unescape, FirstLine, LineLength, Pending, UnescapeLetter, IsCopy;
      ghost var v := Unescape(FirstLine(s[start..]));
      NonePending(FirstLine(s[start..]));
      var p, j, esc := start, 0, false;
      while d[p] != 0 && d[p] != CR && d[p] != LF
        invariant start <= p <= |s| && 0 <= j < dest.Length
        invariant v == dest[..j] + Pending(esc, FirstLine(s[p..]))
        decreases |s| - p
      {
        FirstLineStep(s, p);
        if !esc && d[p] == BACKSLASH {
          esc := true;
        } else {
          ghost var before, rest := dest[..j], Pending(false, FirstLine(s[p + 1..]));
          var c := if esc then UnescapeLetter(d[p]) else d[p];
          Shift(before, c, rest);
          Put(dest, j, c);
          j := j + 1;
          esc := false;
          if j == dest.Length {
            Put(dest, j - 1, 0);
            Copied(v, dest[..], j - 1, [c] + rest);
            return j - 1;
          }
        }
        p := p + 1;
      }
      NothingPending(s, p, esc);
      Put(dest, j, 0);
      Copied(v, dest[..], j, []);
      n := j;
    }

    /** The length of the first value added under key, copied to dest; -1 and an empty string without one. */
    method Get(key: seq<byte>, dest: array<byte>) returns (n: int)
      requires Valid() && LegalKey(key) && dest != d
      modifies dest
      ensures dest.Length == 0 ==> n == -1
      ensures dest.Length > 0 ==>
        match FirstValue(es, key)
        case None => n == -1 && dest[0] == 0
        case Some(v) => n >= 0 && IsCopy(v, dest[..], n)
    {
      hide Render, Lookup, FirstValue, Match, LineLength, Unescape;
      if dest.Length == 0 {
        return -1;
      }
      ghost var s := Render(es);
      RenderClean(es);
      LookupRender(es, key);
      var p := 0;
      assert s[0..] == s && s[|s|..] == [];
      LookupEmpty(key);
      while d[p] != 0
        invariant 0 <= p <= |s|
        invariant Lookup(s[p..], key) == FirstValue(es, key)
        decreases |s| - p
      {
        var q := SkipKey(p, key, s);
        if q - p == |key| && d[q] == EQUALS {
          HitAt(s, p, q, key);
          n := CopyValue(q + 1, dest, s);
          return;
        }
        var e := SkipLine(q, s);
        MissAt(s, p, q, e, key);
        p := e;
        if d[p] == 0 {
          break;
        }
        p := p + 1;
      }
      dest[0] := 0;
      n := -1;
    }
  }

  method Put(dest: array<byte>, j: nat, c: byte)
    requires j < dest.Length
    modifies dest
    ensures dest[..j] == old(dest[..j]) && dest[j] == c && dest[..j + 1] == old(dest[..j]) + [c]
  {
    dest[j] := c;
  }

  /** dest starts with the first n bytes of v and a terminator: all of v if it fits, else as much as fits. */
  predicate IsCopy(v: seq<byte>, dest: seq<byte>, n: nat) {
    && n < |dest| && n == (if |v| < |dest| then |v| else |dest| - 1)
    && dest[..n] == v[..n] && dest[n] == 0
  }

  function Pending(esc: bool, line: seq<byte>): seq<byte> {
    Unescape(if esc then [BACKSLASH] + line else line)
  }

  lemma FirstLineStep(s: seq<byte>, p: nat)
    requires p < |s| && !Break(s[p])
    ensures FirstLine(s[p..]) == [s[p]] + FirstLine(s[p + 1..])
    ensures Pending(true, FirstLine(s[p..])) == [UnescapeLetter(s[p])] + Pending(false, FirstLine(s[p + 1..]))
    ensures Pending(false, FirstLine(s[p..])) ==
            if s[p] == BACKSLASH then Pending(true, FirstLine(s[p + 1..]))
            else [s[p]] + Pending(false, FirstLine(s[p + 1..]))
  {
    assert s[p..][1..] == s[p + 1..];
    var line, rest := FirstLine(s[p..]), FirstLine(s[p + 1..]);
    assert line == [s[p]] + rest;
    assert ([BACKSLASH] + line)[2..] == rest;
    assert line[1..] == rest;
  }

  lemma LookupEmpty(key: seq<byte>)
    ensures Lookup([], key) == None
  {
  }

  lemma Shift(a: seq<byte>, c: byte, b: seq<byte>)
    ensures a + ([c] + b) == (a + [c]) + b && (a + ([c] + b))[..|a|] == a
  {
  }

  lemma NonePending(line: seq<byte>)
    ensures Pending(false, line) == Unescape(line)
  {
  }

  lemma Copied(v: seq<byte>, dest: seq<byte>, n: nat, rest: seq<byte>)
    requires n < |dest| && v == dest[..n] + rest && dest[n] == 0
    requires rest == [] || n == |dest| - 1
    ensures IsCopy(v, dest, n)
  {
  }

  lemma NothingPending(s: seq<byte>, p: nat, esc: bool)
    requires p <= |s| && (p < |s| ==> Break(s[p]))
    ensures Pending(esc, FirstLine(s[p..])) == []
  {
    assert FirstLine(s[p..]) == [];
  }

  lemma LookupNext(s: seq<byte>, key: seq<byte>)
    requires s != [] && !Hits(s, key)
    ensures Lookup(s, key) == if LineEnd(s, key) < |s| then Lookup(s[LineEnd(s, key) + 1..], key) else None
  {
    hide Hits, LineEnd, FirstLine, Unescape;
  }

  lemma HitAt(s: seq<byte>, p: nat, q: nat, key: seq<byte>)
    requires p <= q < |s| && q - p == Match(s[p..], key) == |key| && s[q] == EQUALS
    ensures Lookup(s[p..], key) == Some(Unescape(FirstLine(s[q + 1..])))
  {
    hide Match, LineLength, FirstLine, Unescape, LineEnd;
    var t := s[p..];
    assert t[q - p] == s[q] && t[q - p + 1..] == s[q + 1..];
    assert Hits(t, key);
  }

  lemma MissAt(s: seq<byte>, p: nat, q: nat, e: nat, key: seq<byte>)
    requires p < |s| && p <= q <= e <= |s| && q - p == Match(s[p..], key) && e - q == LineLength(s[q..])
    requires !(q - p == |key| && q < |s| && s[q] == EQUALS)
    ensures Lookup(s[p..], key) == if e < |s| then Lookup(s[e + 1..], key) else None
  {
    hide Match, LineLength, Lookup;
    var t := s[p..];
    assert t[q - p..] == s[q..];
    assert q < |s| ==> t[q - p] == s[q];
    assert e < |s| ==> t[e - p + 1..] == s[e + 1..];
    assert !Hits(t, key) && LineEnd(t, key) == e - p;
    LookupNext(t, key);
  }

  lemma Flatten(text: seq<byte>, sep: seq<byte>, key: seq<byte>, value: seq<byte>)
    ensures text + sep + key + [EQUALS] + value == text + (sep + (key + [EQUALS] + value))
  {
  }

  lemma EmptyEscape()
    ensures Escape([]) == []
  {
  }

  lemma FirstZero(text: seq<byte>, s: seq<byte>, i: nat)
    requires i < |s| && s == text + [0] && s[i] == 0
    requires forall k :: 0 <= k < |text| ==> text[k] != 0
    ensures i == |text|
  {
  }

  lemma EscapeNext(v: seq<byte>, k: nat)
    requires k < |v|
    ensures Escape(v[..k + 1]) == Escape(v[..k]) + EscapeByte(v[k])
    ensures |Escape(v[..k + 1])| <= |Escape(v)|
  {
    EscapeConcat(v[..k], [v[k]]);
    assert v[..k] + [v[k]] == v[..k + 1];
    assert Escape([v[k]]) == EscapeByte(v[k]) + Escape([]);
    EscapeConcat(v[..k + 1], v[k + 1..]);
    assert v[..k + 1] + v[k + 1..] == v;
  }

  lemma {:induction false} EscapeConcat(a: seq<byte>, b: seq<byte>)
    ensures Escape(a + b) == Escape(a) + Escape(b)
  {
    if a == [] {
      assert a + b == b;
    } else {
      assert (a + b)[1..] == a[1..] + b;
      EscapeConcat(a[1..], b);
    }
  }
}
