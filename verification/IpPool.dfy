/** Assigning a member a free, routed IPv4 address from a pool. */
module IpPool {
  import opened Common
  import Bits
  import Limbs

  const TWO32 := 0x1_0000_0000
  const MAX_TRIALS := 1000

  /** A managed route; only IPv4 targets matter here. */
  datatype Route = V4(target: uint32, bits: nat) | V6

  datatype Pool = Pool(first: uint32, last: uint32)

  /** The address under a mask of bits ones. For 0 bits, or more than 32, the shift is undefined in the source: odd says
      which mask the machine makes of it. */
  function Masked(ip: uint32, bits: nat, odd: nat -> uint32): nat {
    if 1 <= bits <= 32 then
      RemainderLe(ip, Pow2(32 - bits));
      ip - ip % Pow2(32 - bits)
    else Bits.And(ip, odd(bits))
  }

  lemma RemainderLe(a: nat, d: nat)
    requires d > 0
    ensures 0 <= a % d <= a
  {
    var q := a / d;
    assert a == q * d + a % d;
    if q < 0 {
      Limbs.MulLe(1, -q, d);
    } else {
      Limbs.MulLe(0, q, d);
    }
  }

  predicate Matches(ip: uint32, r: Route, odd: nat -> uint32) {
    r.V4? && Masked(ip, r.bits, odd) == r.target
  }

  /** A route of 1 to 32 bits holds the block of addresses that starts at its target, when the target is aligned; with other
      bits the machine's mask decides, and IPv6 routes hold none. */
  lemma MatchesRange(ip: uint32, r: Route, odd: nat -> uint32)
    ensures r.V4? && 1 <= r.bits <= 32 ==>
              (Matches(ip, r, odd) <==>
               r.target % Pow2(32 - r.bits) == 0 && r.target <= ip < r.target + Pow2(32 - r.bits))
    ensures r.V4? && (r.bits == 0 || r.bits > 32) ==> (Matches(ip, r, odd) <==> Bits.And(ip, odd(r.bits)) == r.target)
    ensures r.V6? ==> !Matches(ip, r, odd)
  {
    if r.V4? && 1 <= r.bits <= 32 {
      InBlock(ip, r.target, Pow2(32 - r.bits));
    }
  }

  lemma InBlock(ip: nat, target: nat, d: nat)
    requires d > 0
    ensures ip - ip % d == target <==> target % d == 0 && target <= ip < target + d
  {
    var q := ip / d;
    assert ip - ip % d == q * d;
    if target == q * d {
      Limbs.QuotientUnique(target, q, 0, d);
    }
    if target % d == 0 && target <= ip < target + d {
      Limbs.QuotientUnique(ip, target / d, ip - target, d);
    }
  }

  /** The bits of the first route the address is in, -1 without one. */
  function FirstBits(ip: uint32, routes: seq<Route>, odd: nat -> uint32): int {
    if routes == [] then -1
    else if Matches(ip, routes[0], odd) then routes[0].bits
    else FirstBits(ip, routes[1..], odd)
  }

  predicate Eligible(ip: uint32, routes: seq<Route>, odd: nat -> uint32, taken: set<uint32>) {
    ip % 256 != 255 && FirstBits(ip, routes, odd) > 0 && ip !in taken
  }

  /** An address with bits from a route is in one with those bits. */
  lemma {:induction false} FirstBitsMatch(ip: uint32, routes: seq<Route>, odd: nat -> uint32)
    ensures FirstBits(ip, routes, odd) >= 0 ==>
              exists r :: r in routes && Matches(ip, r, odd) && r.bits == FirstBits(ip, routes, odd)
    ensures FirstBits(ip, routes, odd) == -1 <==> forall r :: r in routes ==> !Matches(ip, r, odd)
  {
    if routes == [] {
    } else if Matches(ip, routes[0], odd) {
      assert routes[0] in routes;
    } else {
      FirstBitsMatch(ip, routes[1..], odd);
      assert forall r :: r in routes <==> r == routes[0] || r in routes[1..];
    }
  }

  method RoutedBits(ip: uint32, routes: seq<Route>, odd: nat -> uint32) returns (bits: int)
    ensures bits == FirstBits(ip, routes, odd)
    ensures bits == -1 <==> forall j :: 0 <= j < |routes| ==> !Matches(ip, routes[j], odd)
    ensures bits >= 0 ==> exists k :: && 0 <= k < |routes| && Matches(ip, routes[k], odd) && bits == routes[k].bits
                                      && forall j :: 0 <= j < k ==> !Matches(ip, routes[j], odd)
    ensures 1 <= bits <= 32 ==>
              exists r :: && r in routes && r.V4? && r.bits == bits
                          && r.target % Pow2(32 - bits) == 0 && r.target <= ip < r.target + Pow2(32 - bits)
  {
    hide Masked;
    bits := -1;
    assert routes[0..] == routes;
    for i := 0 to |routes|
      invariant bits == -1 && FirstBits(ip, routes, odd) == FirstBits(ip, routes[i..], odd)
      invariant forall j :: 0 <= j < i ==> !Matches(ip, routes[j], odd)
    {
      assert routes[i..][1..] == routes[i + 1..];
      MatchesRange(ip, routes[i], odd);
      if routes[i].V4? && Masked(ip, routes[i].bits, odd) == routes[i].target {
        return routes[i].bits;
      }
    }
  }

  /** What is checked of an address: its last byte, the first route it is in, and that it is free. */
  lemma EligibleSays(ip: uint32, routes: seq<Route>, odd: nat -> uint32, taken: set<uint32>)
    ensures Eligible(ip, routes, odd, taken) <==>
            && ip % 256 != 255 && ip !in taken
            && exists k :: && 0 <= k < |routes| && Matches(ip, routes[k], odd) && routes[k].bits > 0
                           && forall j :: 0 <= j < k ==> !Matches(ip, routes[j], odd)
  {
    hide Matches;
    FirstBitsAre(ip, routes, odd);
  }

  lemma {:induction false} FirstBitsAre(ip: uint32, routes: seq<Route>, odd: nat -> uint32)
    ensures FirstBits(ip, routes, odd) > 0 <==>
            exists k :: && 0 <= k < |routes| && Matches(ip, routes[k], odd) && routes[k].bits > 0
                        && forall j :: 0 <= j < k ==> !Matches(ip, routes[j], odd)
  {
    if routes == [] {
    } else if Matches(ip, routes[0], odd) {
      assert FirstBits(ip, routes, odd) == routes[0].bits;
      if k :| && 0 <= k < |routes| && Matches(ip, routes[k], odd) && routes[k].bits > 0
              && forall j :: 0 <= j < k ==> !Matches(ip, routes[j], odd) {
        assert k == 0;
      }
    } else {
      var rest := routes[1..];
      FirstBitsAre(ip, rest, odd);
      assert forall j :: 0 <= j < |rest| ==> rest[j] == routes[j + 1];
      if k :| && 0 <= k < |rest| && Matches(ip, rest[k], odd) && rest[k].bits > 0
              && forall j :: 0 <= j < k ==> !Matches(ip, rest[j], odd) {
        forall j | 0 <= j < k + 1 ensures !Matches(ip, routes[j], odd) {
          assert j > 0 ==> routes[j] == rest[j - 1];
        }
        assert Matches(ip, routes[k + 1], odd);
      }
      if k :| && 0 <= k < |routes| && Matches(ip, routes[k], odd) && routes[k].bits > 0
              && forall j :: 0 <= j < k ==> !Matches(ip, routes[j], odd) {
        assert k > 0 && Matches(ip, rest[k - 1], odd);
        assert forall j :: 0 <= j < k - 1 ==> !Matches(ip, rest[j], odd);
      }
    }
  }

  // ----- the trials

  /** The address of trial i: the counter starts at the member's own address and wraps at 32 bits. */
  function Trial(pool: Pool, counter: uint32, i: nat): (ip: uint32)
    requires pool.first <= pool.last
    ensures pool.first <= ip <= pool.last && (pool.first < pool.last ==> ip < pool.last)
  {
    var len := pool.last - pool.first;
    if len == 0 then pool.first else pool.first + (counter + i) % TWO32 % len
  }

  /** How many trials there are: k also wraps, so a pool up to the last address gets them all. */
  function Trials(pool: Pool): nat
    requires pool.first <= pool.last
  {
    if pool.last == TWO32 - 1 || pool.last - pool.first + 1 > MAX_TRIALS then MAX_TRIALS
    else pool.last - pool.first + 1
  }

  /** Tries addresses of one pool; finds one exactly when a tried address is eligible, and takes the first. */
  method TryPool(pool: Pool, address: nat, routes: seq<Route>, odd: nat -> uint32, taken: set<uint32>)
    returns (found: bool, ip: uint32, bits: int)
    requires pool.first <= pool.last
    ensures found <==> exists i :: 0 <= i < Trials(pool) && Eligible(Trial(pool, address % TWO32, i), routes, odd, taken)
    ensures found ==> exists i :: && 0 <= i < Trials(pool) && ip == Trial(pool, address % TWO32, i)
                                  && forall j :: 0 <= j < i ==>
                                       !Eligible(Trial(pool, address % TWO32, j), routes, odd, taken)
    ensures found ==> Eligible(ip, routes, odd, taken) && bits == FirstBits(ip, routes, odd)
  {
    hide Eligible, Trial, Trials, FirstBits, Wrapped;
    WrappedStart(pool.first);
    WrappedStart(address % TWO32);
    var len := pool.last - pool.first;
    ghost var start: uint32 := address % TWO32;
    var counter: uint32 := address % TWO32;
    var k: uint32, trials := pool.first, 0;
    ip, bits := 0, -1;
    TrialBound(pool, 0, k);
    while k <= pool.last && trials < MAX_TRIALS
      invariant 0 <= trials <= Trials(pool)
      invariant k == Wrapped(pool.first, trials) && counter == Wrapped(start, trials)
      invariant forall j :: 0 <= j < trials ==> !Eligible(Trial(pool, start, j), routes, odd, taken)
      decreases MAX_TRIALS - trials
    {
      TrialBound(pool, trials, k);
      TrialIs(pool, start, trials);
      ip := if len > 0 then pool.first + counter % len else pool.first;
      WrappedNext(start, trials);
      WrappedNext(pool.first, trials);
      counter := if counter == TWO32 - 1 then 0 else counter + 1;
      var ok;
      ok, bits := Check(ip, routes, odd, taken);
      if ok {
        return true, ip, bits;
      }
      k := if k == TWO32 - 1 then 0 else k + 1;
      trials := trials + 1;
    }
    TrialBound(pool, trials, k);
    found := false;
  }

  /** The checks on one address. */
  method Check(ip: uint32, routes: seq<Route>, odd: nat -> uint32, taken: set<uint32>) returns (ok: bool, bits: int)
    ensures ok <==> Eligible(ip, routes, odd, taken)
    ensures ok ==> bits == FirstBits(ip, routes, odd)
  {
    hide FirstBits;
    ok, bits := false, -1;
    if ip % 256 != 255 {
      bits := RoutedBits(ip, routes, odd);
      ok := bits > 0 && ip !in taken;
    }
  }

  /** A 32-bit counter after n increments. */
  function Wrapped(x: uint32, n: nat): uint32 {
    (x + n) % TWO32
  }

  lemma WrappedStart(x: uint32)
    ensures Wrapped(x, 0) == x
  {
  }

  lemma WrappedNext(x: uint32, n: nat)
    ensures Wrapped(x, n + 1) == if Wrapped(x, n) == TWO32 - 1 then 0 else Wrapped(x, n) + 1
  {
  }

  lemma TrialIs(pool: Pool, start: uint32, i: nat)
    requires pool.first <= pool.last
    ensures Trial(pool, start, i) ==
            if pool.last == pool.first then pool.first else pool.first + Wrapped(start, i) % (pool.last - pool.first)
  {
  }

  /** The trials, written out: up to 1000 of them, from the member's own address on, around the pool without its last one. */
  lemma TrialsAre(pool: Pool, counter: uint32, i: nat)
    requires pool.first <= pool.last
    ensures Trials(pool) ==
            if pool.last == 0xffff_ffff || pool.last - pool.first >= 1000 then 1000 else pool.last - pool.first + 1
    ensures pool.first == pool.last ==> Trial(pool, counter, i) == pool.first
    ensures pool.first < pool.last ==>
              Trial(pool, counter, i) == pool.first + (counter + i) % 0x1_0000_0000 % (pool.last - pool.first)
  {
  }

  /** The loop's guard holds exactly while trials are left. */
  lemma TrialBound(pool: Pool, trials: nat, k: uint32)
    requires pool.first <= pool.last && trials <= Trials(pool) && k == Wrapped(pool.first, trials)
    ensures k <= pool.last && trials < MAX_TRIALS <==> trials < Trials(pool)
  {
  }

  // ----- when the trials reach every address

  predicate Covers(counter: uint32, len: nat, trials: nat)
    requires len > 0
  {
    forall x :: 0 <= x < len ==> Hit(counter, len, trials, x)
  }

  predicate Hit(counter: uint32, len: nat, trials: nat, x: nat)
    requires len > 0
  {
    exists i :: 0 <= i < trials && Wrapped(counter, i) % len == x
  }

  /** Enough trials, and either no wrap before len of them, or len after it, or the two stretches meet. */
  predicate Reaches(counter: uint32, len: nat, trials: nat)
    requires len > 0
  {
    var m := TWO32 - counter;
    && trials >= len
    && (m >= len || trials - m >= len || len - m <= counter % len <= trials - m)
  }

  /** Before the counter wraps, residues go up from the first one, around len. */
  lemma Before(counter: uint32, len: nat, i: nat)
    requires 0 < len && i < len && counter + i < TWO32
    ensures var s := counter % len; Wrapped(counter, i) % len == if s + i < len then s + i else s + i - len
  {
    var q, s := counter / len, counter % len;
    if s + i < len {
      Limbs.QuotientUnique(counter + i, q, s + i, len);
    } else {
      Limbs.QuotientUnique(counter + i, q + 1, s + i - len, len);
    }
  }

  /** After it wraps they go up from 0. */
  lemma After(counter: uint32, len: nat, i: nat)
    requires 0 < len < TWO32 && TWO32 <= counter + i < TWO32 + len
    ensures Wrapped(counter, i) % len == counter + i - TWO32
  {
    var w := counter + i - TWO32;
    Limbs.QuotientUnique(counter + i, 1, w, TWO32);
    Limbs.QuotientUnique(w, 0, w, len);
  }

  lemma ReachesCovers(counter: uint32, len: nat, trials: nat)
    requires 0 < len < TWO32 && Reaches(counter, len, trials)
    ensures Covers(counter, len, trials)
  {
    hide Wrapped;
    var m, s := TWO32 - counter, counter % len;
    forall x | 0 <= x < len ensures Hit(counter, len, trials, x) {
      var i := if m < len && x < trials - m then m + x else if x >= s then x - s else x + len - s;
      if m < len && x < trials - m {
        After(counter, len, i);
      } else {
        Before(counter, len, i);
      }
      assert Wrapped(counter, i) % len == x;
    }
  }

  lemma CoversReaches(counter: uint32, len: nat, trials: nat)
    requires 0 < len < TWO32 && !Reaches(counter, len, trials)
    ensures !Covers(counter, len, trials)
  {
    hide Wrapped;
    var m, s := TWO32 - counter, counter % len;
    var x := if trials <= m then (if s > 0 then s - 1 else len - 1)
             else if s > trials - m then s - 1 else len - 1;
    forall i | 0 <= i < trials ensures Wrapped(counter, i) % len != x {
      if i < m {
        Before(counter, len, i);
      } else {
        After(counter, len, i);
      }
    }
    assert !Hit(counter, len, trials, x);
  }

  /** Within a pool, the trials reach every address but the last exactly under Reaches. */
  lemma CoversExactly(counter: uint32, len: nat, trials: nat)
    requires 0 < len < TWO32
    ensures Covers(counter, len, trials) <==> Reaches(counter, len, trials)
  {
    if Reaches(counter, len, trials) {
      ReachesCovers(counter, len, trials);
    } else {
      CoversReaches(counter, len, trials);
    }
  }

  function Length(pool: Pool): int {
    pool.last - pool.first
  }

  /** Completeness: an eligible address below the last one is found, or an earlier one, whenever Reaches holds. */
  lemma PoolComplete(pool: Pool, address: nat, routes: seq<Route>, odd: nat -> uint32, taken: set<uint32>, ip: uint32)
    requires pool.first <= ip < pool.last && Eligible(ip, routes, odd, taken)
    requires Reaches(address % TWO32, Length(pool), Trials(pool))
    ensures exists i :: 0 <= i < Trials(pool) && Eligible(Trial(pool, address % TWO32, i), routes, odd, taken)
  {
    hide Eligible, Wrapped, Reaches;
    var counter: uint32 := address % TWO32;
    ReachesCovers(counter, Length(pool), Trials(pool));
    assert Hit(counter, Length(pool), Trials(pool), ip - pool.first);
    var i :| 0 <= i < Trials(pool) && Wrapped(counter, i) % Length(pool) == ip - pool.first;
    TrialIs(pool, counter, i);
    assert Trial(pool, counter, i) == ip;
  }

  /** Without Reaches there is an address the trials miss: even with every other address taken, it is not assigned. */
  lemma PoolMisses(pool: Pool, address: nat, routes: seq<Route>, odd: nat -> uint32) returns (ip: uint32)
    requires pool.first < pool.last
    requires !Reaches(address % TWO32, Length(pool), Trials(pool))
    ensures pool.first <= ip < pool.last
    ensures forall taken: set<uint32>, i: nat ::
              (forall a: uint32 :: pool.first <= a < pool.last && a != ip ==> a in taken) && i < Trials(pool) ==>
              !Eligible(Trial(pool, address % TWO32, i), routes, odd, taken)
  {
    hide Wrapped, Reaches, Hit, FirstBits;
    var counter: uint32 := address % TWO32;
    CoversReaches(counter, Length(pool), Trials(pool));
    var x :| 0 <= x < Length(pool) && !Hit(counter, Length(pool), Trials(pool), x);
    MissedIp(pool, counter, x);
    ip := pool.first + x;
  }

  lemma MissedIp(pool: Pool, counter: uint32, x: nat)
    requires pool.first < pool.last && x < Length(pool) && !Hit(counter, Length(pool), Trials(pool), x)
    ensures forall i: nat :: i < Trials(pool) ==> Trial(pool, counter, i) != pool.first + x
  {
    hide Wrapped;
    forall i: nat | i < Trials(pool) ensures Trial(pool, counter, i) != pool.first + x {
      TrialIs(pool, counter, i);
      assert Wrapped(counter, i) % Length(pool) != x;
    }
  }

  /** Up to 1000 addresses and a counter that does not wrap within them are enough. */
  lemma SmallPoolReaches(pool: Pool, counter: uint32)
    requires pool.first < pool.last && Length(pool) <= MAX_TRIALS && counter + Length(pool) <= TWO32
    ensures Reaches(counter, Length(pool), Trials(pool))
  {
  }

  /** A wrap in the middle of a pool of ten makes the trials miss some of it. */
  lemma WrapMisses()
    ensures !Covers(0xffff_fffe, 10, Trials(Pool(100, 110)))
  {
    CoversReaches(0xffff_fffe, 10, 11);
  }

  /** Goes through the pools in order until one yields an address. */
  method Assign(pools: seq<Pool>, address: nat, routes: seq<Route>, odd: nat -> uint32, taken: set<uint32>)
    returns (found: bool, ip: uint32, bits: int)
    ensures found <==> exists p :: 0 <= p < |pools| && Yields(pools[p], address, routes, odd, taken)
    ensures found ==>
      && Eligible(ip, routes, odd, taken) && bits == FirstBits(ip, routes, odd)
      && exists p :: && 0 <= p < |pools| && Usable(pools[p]) && pools[p].first <= ip <= pools[p].last
                     && forall q :: 0 <= q < p ==> !Yields(pools[q], address, routes, odd, taken)
    ensures found ==>
      && ip % 256 != 255 && ip !in taken
      && exists p :: && p in pools && 0 < p.first <= ip <= p.last
    ensures found && bits <= 32 ==>
      && 1 <= bits
      && exists r :: && r in routes && r.V4? && r.bits == bits
                     && r.target % Pow2(32 - bits) == 0 && r.target <= ip < r.target + Pow2(32 - bits)
  {
    hide Eligible, Trial, Trials, FirstBits;
    found, ip, bits := false, 0, -1;
    for p := 0 to |pools|
      invariant !found && forall q :: 0 <= q < p ==> !Yields(pools[q], address, routes, odd, taken)
    {
      if pools[p].last < pools[p].first || pools[p].first == 0 {
        continue;
      }
      found, ip, bits := TryPool(pools[p], address, routes, odd, taken);
      if found {
        TrialInside(pools[p], address % TWO32);
        EligibleIn(ip, routes, odd, taken);
        assert pools[p] in pools;
        return;
      }
    }
  }

  lemma EligibleIn(ip: uint32, routes: seq<Route>, odd: nat -> uint32, taken: set<uint32>)
    requires Eligible(ip, routes, odd, taken)
    ensures ip % 256 != 255 && ip !in taken && FirstBits(ip, routes, odd) > 0
    ensures FirstBits(ip, routes, odd) <= 32 ==>
              exists r :: && r in routes && r.V4? && r.bits == FirstBits(ip, routes, odd)
                          && r.target % Pow2(32 - r.bits) == 0 && r.target <= ip < r.target + Pow2(32 - r.bits)
  {
    FirstBitsMatch(ip, routes, odd);
    hide FirstBits;
    var r :| r in routes && Matches(ip, r, odd) && r.bits == FirstBits(ip, routes, odd);
    MatchesRange(ip, r, odd);
  }

  predicate Usable(pool: Pool) {
    pool.first <= pool.last && pool.first != 0
  }

  /** Some trial of a usable pool hits an eligible address. */
  predicate Yields(pool: Pool, address: nat, routes: seq<Route>, odd: nat -> uint32, taken: set<uint32>)
  {
    && Usable(pool)
    && exists i :: 0 <= i < Trials(pool) && Eligible(Trial(pool, address % TWO32, i), routes, odd, taken)
  }

  lemma TrialInside(pool: Pool, counter: uint32)
    requires pool.first <= pool.last
    ensures forall i: nat :: pool.first <= Trial(pool, counter, i) <= pool.last
  {
  }
}
