/** Cached network summaries, kept up to date by a background thread. */
module Summaries {
  import opened Common

  const AUTOCONF_DELAY := 60000

  /** What summaries depend on; lastLog is the time of the newest entry of the log, if there is one. */
  datatype Member = Member(authorized: bool, activeBridge: bool, ips: seq<nat>, lastDeauthorized: nat, lastLog: Option<nat>)
  type Members = map<nat, Member>

  /** The records of a network, of which some may not be readable. */
  type Stored = map<nat, Option<Member>>

  function Readable(stored: Stored): Members {
    map a | a in stored && stored[a].Some? :: stored[a].value
  }

  /** The summary without the count of recently active members, which depends on the clock. */
  datatype Summary = Summary(activeBridges: seq<nat>, allocatedIps: seq<nat>, authorized: nat, total: nat, deauthTime: nat)

  const DEFAULT := Summary([], [], 0, 0, 0)

  // ----- what a summary is, independent of the order members are visited in

  function AuthorizedOnes(members: Members): set<nat> {
    set a | a in members && members[a].authorized
  }

  function Bridges(members: Members): set<nat> {
    set a | a in members && members[a].authorized && members[a].activeBridge
  }

  function OwnIps(m: Member): multiset<nat> {
    if m.authorized then multiset(m.ips) else multiset{}
  }

  ghost function Some(keys: set<nat>): (a: nat)
    requires keys != {}
    ensures a in keys
  {
    var a :| a in keys; a
  }

  /** The addresses of the authorised members, each as often as it is assigned. */
  ghost function Ips(members: Members): multiset<nat>
    decreases members.Keys
  {
    if members.Keys == {} then multiset{}
    else
      var a := Some(members.Keys);
      OwnIps(members[a]) + Ips(members - {a})
  }

  lemma {:induction false} IpsWithout(members: Members, a: nat)
    requires a in members
    ensures Ips(members) == OwnIps(members[a]) + Ips(members - {a})
    decreases members.Keys
  {
    hide OwnIps;
    var b := Some(members.Keys);
    if a != b {
      IpsWithout(members - {b}, a);
      IpsWithout(members - {a}, b);
      assert members - {b} - {a} == members - {a} - {b};
      Exchange(OwnIps(members[a]), OwnIps(members[b]), Ips(members - {b} - {a}));
    }
  }

  lemma Exchange(x: multiset<nat>, y: multiset<nat>, z: multiset<nat>)
    ensures x + (y + z) == y + (x + z)
  {
  }

  predicate Sorted(s: seq<nat>) {
    forall i, j :: 0 <= i < j < |s| ==> s[i] <= s[j]
  }

  predicate IsDeauthTime(members: Members, d: nat) {
    && (forall a :: a in members && !members[a].authorized ==> members[a].lastDeauthorized <= d)
    && (d == 0 || exists a :: a in members && !members[a].authorized && members[a].lastDeauthorized == d)
  }

  ghost predicate IsSummary(members: Members, s: Summary) {
    && Sorted(s.activeBridges) && multiset(s.activeBridges) == multiset(Bridges(members))
    && Sorted(s.allocatedIps) && multiset(s.allocatedIps) == Ips(members)
    && s.authorized == |AuthorizedOnes(members)| && s.total == |members|
    && IsDeauthTime(members, s.deauthTime)
  }

  lemma Least(s: seq<nat>, t: seq<nat>)
    requires Sorted(s) && multiset(s) == multiset(t) && s != [] && t != []
    ensures s[0] <= t[0]
  {
    assert t[0] in multiset(s);
  }

  lemma Tail(s: seq<nat>)
    requires s != []
    ensures multiset(s[1..]) == multiset(s) - multiset{s[0]}
  {
    assert s == [s[0]] + s[1..];
  }

  /** The summary is that of the readable records. */
  ghost predicate Exact(stored: Stored, s: Summary) {
    IsSummary(Readable(stored), s)
  }

  /** The authorised members whose log was written to of late. */
  function ActiveOnes(members: Members, now: nat): set<nat> {
    set a | a in members && Active(members[a], now)
  }

  predicate Active(m: Member, now: nat) {
    m.authorized && m.lastLog.Some? && 0 <= now - m.lastLog.value < 2 * AUTOCONF_DELAY
  }

  lemma {:induction false} SortedUnique(s: seq<nat>, t: seq<nat>)
    requires Sorted(s) && Sorted(t) && multiset(s) == multiset(t)
    ensures s == t
  {
    assert |s| == |multiset(s)| == |multiset(t)| == |t|;
    if s == [] {
    } else {
      Least(s, t);
      Least(t, s);
      Tail(s);
      Tail(t);
      SortedUnique(s[1..], t[1..]);
      assert s == [s[0]] + s[1..] && t == [t[0]] + t[1..];
    }
  }

  /** Members have one summary. */
  lemma SummaryUnique(members: Members, s: Summary, t: Summary)
    requires IsSummary(members, s) && IsSummary(members, t)
    ensures s == t
  {
    SortedUnique(s.activeBridges, t.activeBridges);
    SortedUnique(s.allocatedIps, t.allocatedIps);
  }

  lemma ExactUnique(stored: Stored, s: Summary, t: Summary)
    requires Exact(stored, s) && Exact(stored, t)
    ensures s == t
  {
    SummaryUnique(Readable(stored), s, t);
  }

  /** What an exact summary says of the readable records. */
  lemma ExactSays(stored: Stored, s: Summary)
    requires Exact(stored, s)
    ensures forall i, j :: 0 <= i < j < |s.activeBridges| ==> s.activeBridges[i] < s.activeBridges[j]
    ensures forall a :: a in s.activeBridges <==>
                        a in stored && stored[a].Some? && stored[a].value.authorized && stored[a].value.activeBridge
    ensures forall i, j :: 0 <= i < j < |s.allocatedIps| ==> s.allocatedIps[i] <= s.allocatedIps[j]
    ensures s.authorized == |set a | a in stored && stored[a].Some? && stored[a].value.authorized|
    ensures s.total == |set a | a in stored && stored[a].Some?|
    ensures forall a :: a in stored && stored[a].Some? && !stored[a].value.authorized ==>
              stored[a].value.lastDeauthorized <= s.deauthTime
    ensures s.deauthTime == 0 ||
            exists a :: && a in stored && stored[a].Some? && !stored[a].value.authorized
                        && stored[a].value.lastDeauthorized == s.deauthTime
  {
    hide Ips;
    var members := Readable(stored);
    assert AuthorizedOnes(members) == set a | a in stored && stored[a].Some? && stored[a].value.authorized;
    assert members.Keys == set a | a in stored && stored[a].Some?;
    SortedDistinct(s.activeBridges, Bridges(members));
    forall a ensures a in s.activeBridges <==> a in Bridges(members) {
      assert a in s.activeBridges <==> a in multiset(s.activeBridges);
    }
  }

  lemma SortedDistinct(s: seq<nat>, elements: set<nat>)
    requires Sorted(s) && multiset(s) == multiset(elements)
    ensures forall i, j :: 0 <= i < j < |s| ==> s[i] < s[j]
  {
    forall i, j | 0 <= i < j < |s| ensures s[i] < s[j] {
      Twice(s, i, j);
      assert multiset(s)[s[i]] <= 1;
    }
  }

  lemma Twice(s: seq<nat>, i: nat, j: nat)
    requires i < j < |s|
    ensures s[i] == s[j] ==> multiset(s)[s[i]] >= 2
  {
    assert s == s[..i] + [s[i]] + s[i + 1..j] + [s[j]] + s[j + 1..];
  }

  /** An exact summary lists the addresses of the authorised readable records, each as often as they hold it. */
  lemma ExactIps(stored: Stored, a: nat, s: Summary, without: Summary)
    requires a in stored && Exact(stored, s) && Exact(stored - {a}, without)
    ensures multiset(s.allocatedIps) ==
            multiset(without.allocatedIps) +
            if stored[a].Some? && stored[a].value.authorized then multiset(stored[a].value.ips) else multiset{}
    ensures stored.Keys == {a} ==> without.allocatedIps == []
  {
    hide Ips, Bridges, AuthorizedOnes, IsDeauthTime, Sorted;
    IpsReadable(stored, a);
    NoIps();
    if stored.Keys == {a} {
      assert Readable(stored - {a}) == map[];
      assert |without.allocatedIps| == |multiset(without.allocatedIps)|;
    }
  }

  lemma NoIps()
    ensures Ips(map[]) == multiset{}
  {
  }

  lemma IpsReadable(stored: Stored, a: nat)
    requires a in stored
    ensures Ips(Readable(stored)) ==
            Ips(Readable(stored - {a})) +
            if stored[a].Some? && stored[a].value.authorized then multiset(stored[a].value.ips) else multiset{}
  {
    hide Ips;
    var members := Readable(stored);
    if stored[a].Some? {
      IpsWithout(members, a);
      assert members - {a} == Readable(stored - {a});
    } else {
      assert members == Readable(stored - {a});
    }
  }

  /** The summary a network is created with is that of no members. */
  lemma DefaultIsSummary()
    ensures IsSummary(map[], DEFAULT)
  {
    assert Bridges(map[]) == {} && AuthorizedOnes(map[]) == {};
  }

  // ----- computing a summary

  function Insert(x: nat, s: seq<nat>): seq<nat> {
    if s == [] || x <= s[0] then [x] + s else [s[0]] + Insert(x, s[1..])
  }

  function Sort(s: seq<nat>): seq<nat> {
    if s == [] then [] else Insert(s[0], Sort(s[1..]))
  }

  lemma {:induction false} InsertSorts(x: nat, s: seq<nat>)
    requires Sorted(s)
    ensures Sorted(Insert(x, s)) && multiset(Insert(x, s)) == multiset(s) + multiset{x}
  {
    if s != [] && x > s[0] {
      InsertSorts(x, s[1..]);
      Prepend(s[0], Insert(x, s[1..]), s[1..], x);
      Tail(s);
      hide Sorted;
    } else {
      assert [x] + s == Insert(x, s);
    }
  }

  lemma Prepend(h: nat, r: seq<nat>, t: seq<nat>, x: nat)
    requires Sorted(r) && multiset(r) == multiset(t) + multiset{x} && h <= x && forall i :: 0 <= i < |t| ==> h <= t[i]
    ensures Sorted([h] + r)
  {
    forall i | 0 <= i < |r| ensures h <= r[i] {
      assert r[i] in multiset(r);
    }
  }

  lemma {:induction false} SortSorts(s: seq<nat>)
    ensures Sorted(Sort(s)) && multiset(Sort(s)) == multiset(s)
  {
    if s == [] {
    } else {
      SortSorts(s[1..]);
      InsertSorts(s[0], Sort(s[1..]));
      assert s == [s[0]] + s[1..];
    }
  }

  /** The running totals over the members seen so far, before sorting. */
  ghost predicate Tallies(seen: Members, s: Summary) {
    && multiset(s.activeBridges) == multiset(Bridges(seen)) && multiset(s.allocatedIps) == Ips(seen)
    && s.authorized == |AuthorizedOnes(seen)| && s.total == |seen| && IsDeauthTime(seen, s.deauthTime)
  }

  function Add(s: Summary, a: nat, m: Member): Summary {
    if m.authorized then
      s.(authorized := s.authorized + 1, total := s.total + 1,
         activeBridges := if m.activeBridge then s.activeBridges + [a] else s.activeBridges,
         allocatedIps := s.allocatedIps + m.ips)
    else
      s.(total := s.total + 1,
         deauthTime := if s.deauthTime < m.lastDeauthorized then m.lastDeauthorized else s.deauthTime)
  }

  lemma AddTallies(seen: Members, s: Summary, a: nat, m: Member)
    requires Tallies(seen, s) && a !in seen
    ensures Tallies(seen[a := m], Add(s, a, m))
  {
    hide Ips, IsDeauthTime, Bridges, AuthorizedOnes;
    AddIps(seen, a, m);
    AddAuthorized(seen, a, m);
    AddBridge(seen, a, m);
    AddDeauth(seen, s.deauthTime, a, m);
    assert multiset(s.activeBridges + [a]) == multiset(s.activeBridges) + multiset{a};
    assert multiset(s.allocatedIps + m.ips) == multiset(s.allocatedIps) + multiset(m.ips);
  }

  lemma AddIps(seen: Members, a: nat, m: Member)
    requires a !in seen
    ensures Ips(seen[a := m]) == Ips(seen) + OwnIps(m)
  {
    hide Ips;
    IpsWithout(seen[a := m], a);
    assert seen[a := m] - {a} == seen;
  }

  lemma AddAuthorized(seen: Members, a: nat, m: Member)
    requires a !in seen
    ensures |AuthorizedOnes(seen[a := m])| == |AuthorizedOnes(seen)| + if m.authorized then 1 else 0
  {
    assert AuthorizedOnes(seen[a := m]) == AuthorizedOnes(seen) + if m.authorized then {a} else {};
  }

  lemma AddBridge(seen: Members, a: nat, m: Member)
    requires a !in seen
    ensures multiset(Bridges(seen[a := m])) ==
            multiset(Bridges(seen)) + if m.authorized && m.activeBridge then multiset{a} else multiset{}
  {
    var one := if m.authorized && m.activeBridge then {a} else {};
    assert Bridges(seen[a := m]) == Bridges(seen) + one;
    Disjoint(Bridges(seen), one);
  }

  lemma Disjoint(x: set<nat>, y: set<nat>)
    requires x !! y
    ensures multiset(x + y) == multiset(x) + multiset(y)
  {
  }

  lemma AddDeauth(seen: Members, d: nat, a: nat, m: Member)
    requires IsDeauthTime(seen, d) && a !in seen
    ensures IsDeauthTime(seen[a := m], if !m.authorized && d < m.lastDeauthorized then m.lastDeauthorized else d)
  {
    var seen' := seen[a := m];
    assert seen'[a] == m;
    forall b | b in seen ensures seen'[b] == seen[b] {
    }
  }

  /** Recomputes a summary and counts the active members, visiting the records in any order and skipping unreadable ones. */
  method Summarize(stored: Stored, now: nat) returns (s: Summary, active: nat)
    ensures Exact(stored, s) && active == |ActiveOnes(Readable(stored), now)|
    ensures active == |set a | && a in stored && stored[a].Some? && stored[a].value.authorized
                               && stored[a].value.lastLog.Some? && 0 <= now - stored[a].value.lastLog.value < 120000|
  {
    ActiveAre(stored, now);
    hide Tallies, IsSummary, Add, Readable, ActiveOnes;
    s, active := DEFAULT, 0;
    var left := stored.Keys;
    NothingSeen(stored, left, now);
    while left != {}
      invariant left <= stored.Keys && Tallies(Readable(stored - left), s)
      invariant active == |ActiveOnes(Readable(stored - left), now)|
    {
      var a :| a in left;
      ReadOne(stored, left, a);
      if stored[a].Some? {
        var m := stored[a].value;
        AddTallies(Readable(stored - left), s, a, m);
        AddActive(Readable(stored - left), a, m, now);
        s := Add(s, a, m);
        if Active(m, now) {
          active := active + 1;
        }
      }
      left := left - {a};
    }
    assert stored - left == stored;
    s := SortSummary(s, Readable(stored));
  }

  lemma NothingSeen(stored: Stored, left: set<nat>, now: nat)
    requires left == stored.Keys
    ensures Tallies(Readable(stored - left), DEFAULT) && ActiveOnes(Readable(stored - left), now) == {}
  {
    DefaultIsSummary();
    assert Readable(stored - left) == map[];
  }

  lemma ReadOne(stored: Stored, left: set<nat>, a: nat)
    requires left <= stored.Keys && a in left
    ensures a !in Readable(stored - left)
    ensures Readable(stored - (left - {a})) ==
            if stored[a].Some? then Readable(stored - left)[a := stored[a].value] else Readable(stored - left)
  {
  }

  lemma AddActive(seen: Members, a: nat, m: Member, now: nat)
    requires a !in seen
    ensures |ActiveOnes(seen[a := m], now)| == |ActiveOnes(seen, now)| + if Active(m, now) then 1 else 0
  {
    assert ActiveOnes(seen[a := m], now) == ActiveOnes(seen, now) + if Active(m, now) then {a} else {};
  }

  lemma ActiveAre(stored: Stored, now: nat)
    ensures ActiveOnes(Readable(stored), now) ==
            set a | && a in stored && stored[a].Some? && stored[a].value.authorized
                    && stored[a].value.lastLog.Some? && 0 <= now - stored[a].value.lastLog.value < 120000
  {
  }

  method SortSummary(tally: Summary, ghost members: Members) returns (s: Summary)
    requires Tallies(members, tally)
    ensures IsSummary(members, s)
  {
    hide IsDeauthTime, Ips, Bridges, AuthorizedOnes, Sorted, Sort;
    SortSorts(tally.activeBridges);
    SortSorts(tally.allocatedIps);
    s := tally.(activeBridges := Sort(tally.activeBridges), allocatedIps := Sort(tally.allocatedIps));
  }
}
