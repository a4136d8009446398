/** The cluster's send queue: two indexes over entries whose memory is pooled. */
module SendQueue {
  import opened Common

  const MAX_PER_SENDER := 16
  const EXPIRATION := 3000
  const CHUNK_SIZE := 32
  const MAX_CHUNKS := 8194
  const DATA_MAX := 1500

  datatype Entry = Entry(timestamp: uint64, from: nat, to: nat, data: seq<byte>, unite: bool)

  // ----- the memory: every slot is in the pool, queued, or checked out

  predicate NoRepeats(s: seq<nat>) {
    forall i, j :: 0 <= i < j < |s| ==> s[i] != s[j]
  }

  ghost predicate Partition(chunks: nat, pool: seq<nat>, queued: set<nat>, out: set<nat>) {
    && chunks <= MAX_CHUNKS && NoRepeats(pool)
    && |pool| + |queued| + |out| == CHUNK_SIZE * chunks
    && (forall q :: 0 <= q < CHUNK_SIZE * chunks <==> q in pool || q in queued || q in out)
    && (forall q :: q in pool ==> q !in queued && q !in out)
    && queued !! out
  }

  // ----- the two indexes

  function From(queued: set<nat>, entries: map<nat, Entry>, from: nat): set<nat>
    requires queued <= entries.Keys
  {
    set q | q in queued && entries[q].from == from
  }

  function To(queued: set<nat>, entries: map<nat, Entry>, to: nat): set<nat>
    requires queued <= entries.Keys
  {
    set q | q in queued && entries[q].to == to
  }

  /** Both indexes hold exactly the queued entries, but for stale pairs in the one by destination. */
  ghost predicate Indexed(queued: set<nat>, entries: map<nat, Entry>, bySrc: set<(nat, nat)>, byDest: set<(nat, nat)>,
                          stale: set<(nat, nat)>)
  {
    && queued <= entries.Keys
    && (forall p :: p in bySrc <==> p.1 in queued && entries[p.1].from == p.0)
    && (forall p :: p in byDest <==> (p.1 in queued && entries[p.1].to == p.0) || p in stale)
    && (forall p :: p in stale ==> p.1 in entries && !(p.1 in queued && entries[p.1].to == p.0))
  }

  /** What the index by destination lists for one. */
  function Listed(byDest: set<(nat, nat)>, dest: nat): set<nat> {
    set p | p in byDest && p.0 == dest :: p.1
  }

  predicate Clean(stale: set<(nat, nat)>, dest: nat) {
    forall p :: p in stale ==> p.0 != dest
  }

  ghost predicate Fair(queued: set<nat>, entries: map<nat, Entry>)
    requires queued <= entries.Keys
  {
    forall a :: |From(queued, entries, a)| <= MAX_PER_SENDER
  }

  class SendQueue {
    var chunks: nat
    var pool: seq<nat>
    var entries: map<nat, Entry>
    var bySrc: set<(nat, nat)>
    var byDest: set<(nat, nat)>
    ghost var queued: set<nat>
    ghost var out: set<nat>
    /** What a full result array left behind in the index by destination. */
    ghost var stale: set<(nat, nat)>

    ghost predicate Consistent()
      reads this
    {
      Partition(chunks, pool, queued, out) && Indexed(queued, entries, bySrc, byDest, stale)
    }

    ghost predicate Sound()
      reads this
    {
      Consistent() && Fair(queued, entries)
    }

    ghost predicate Valid()
      reads this
    {
      Sound() && stale == {}
    }

    constructor ()
      ensures Valid() && queued == {} && out == {} && chunks == 0 && pool == []
    {
      chunks, pool, entries, bySrc, byDest, queued, out, stale := 0, [], map[], {}, {}, {}, {}, {};
    }

    /** Takes an entry off both indexes and puts its memory back in the pool. */
    method Release(q: nat)
      requires Consistent() && q in queued
      modifies this
      ensures Consistent() && queued == old(queued) - {q} && out == old(out) && entries == old(entries)
      ensures pool == old(pool) + [q] && chunks == old(chunks) && stale == old(stale)
    {
      hide Partition, Indexed;
      ReleaseStep(chunks, pool, queued, out, q);
      UnindexStep(queued, entries, bySrc, byDest, stale, q);
      byDest := byDest - {(entries[q].to, q)};
      assert |pool| < CHUNK_SIZE * MAX_CHUNKS;
      pool := pool + [q];
      bySrc := bySrc - {(entries[q].from, q)};
      queued := queued - {q};
    }

    /** Counts a sender's entries and finds the oldest of them. */
    method Oldest(from: nat) returns (count: nat, oldest: nat)
      requires Consistent()
      ensures queued <= entries.Keys && count == |From(queued, entries, from)|
      ensures count > 0 ==> IsOldest(From(queued, entries, from), entries, oldest)
    {
      hide Partition, Indexed, IsOldest, From, Split;
      IndexDomain(queued, entries, bySrc, byDest, stale);
      var left := set p | p in bySrc && p.0 == from :: p.1;
      ghost var all := From(queued, entries, from);
      SenderEntries(queued, entries, bySrc, byDest, stale, from, left);
      count, oldest := 0, 0;
      ghost var seen: set<nat> := {};
      SplitStart(all);
      while left != {}
        invariant Split(all, seen, left) && count == |seen| && seen <= all
        invariant count > 0 ==> IsOldest(seen, entries, oldest)
      {
        var q :| q in left;
        SplitStep(all, seen, left, q);
        OldestStep(seen, entries, oldest, q);
        if count == 0 || entries[q].timestamp < entries[oldest].timestamp {
          oldest := q;
        }
        count := count + 1;
        seen, left := seen + {q}, left - {q};
      }
      SplitEnd(all, seen);
    }

    /** Finds memory for an entry, in the pool or in a new chunk. */
    method Take() returns (ok: bool, e: nat)
      requires Consistent()
      modifies this
      ensures Consistent() && queued == old(queued) && entries == old(entries) && stale == old(stale)
      ensures ok <==> old(pool) != [] || old(chunks) < MAX_CHUNKS
      ensures ok ==> e !in old(out) && e !in queued && out == old(out) + {e}
      ensures old(pool) != [] ==> e == old(pool)[|old(pool)| - 1]
      ensures !ok ==> unchanged(this)
    {
      hide Partition, Indexed;
      if |pool| > 0 {
        PopStep(chunks, pool, queued, out);
        e := pool[|pool| - 1];
        pool := pool[..|pool| - 1];
      } else {
        if chunks >= MAX_CHUNKS {
          return false, 0;
        }
        ChunkStep(chunks, queued, out);
        e := CHUNK_SIZE * chunks;
        pool := Rest(chunks);
        chunks := chunks + 1;
      }
      out := out + {e};
      ok := true;
    }

    /** Drops the sender's oldest entry if it has as many as it may have. */
    method MakeRoom(from: nat) returns (ghost dropped: set<nat>)
      requires Sound()
      modifies this
      ensures Sound() && out == old(out) && entries == old(entries) && chunks == old(chunks) && stale == old(stale)
      ensures queued == old(queued) - dropped && |From(queued, entries, from)| < MAX_PER_SENDER
      ensures IsDropped(old(From(queued, entries, from)), entries, dropped)
      ensures old(|From(queued, entries, from)|) < MAX_PER_SENDER ==> unchanged(this)
      ensures old(|From(queued, entries, from)|) >= MAX_PER_SENDER ==> |pool| > 0 && dropped != {}
    {
      hide Partition, Indexed, Fair, IsOldest, From;
      IndexDomain(queued, entries, bySrc, byDest, stale);
      var count, oldest := Oldest(from);
      dropped := {};
      if count >= MAX_PER_SENDER {
        OldestIn(From(queued, entries, from), entries, oldest);
        Release(oldest);
        dropped := {oldest};
      }
      FewerFrom(old(queued), entries, dropped, from);
    }

    /** Fills a slot and puts it on both indexes. */
    method Insert(e: nat, entry: Entry)
      requires Sound() && e in out && queued <= entries.Keys && |From(queued, entries, entry.from)| < MAX_PER_SENDER
      modifies this
      ensures Sound() && entries == old(entries)[e := entry] && queued == old(queued) + {e} && out == old(out) - {e}
      ensures stale == old(stale) - {(entry.to, e)}
    {
      hide Partition, Indexed, Fair, From;
      InsertStep(chunks, pool, queued, out, e);
      IndexStep(queued, entries, bySrc, byDest, stale, e, entry);
      FairStep(queued, entries, e, entry);
      entries := entries[e := entry];
      bySrc, byDest := bySrc + {(entry.from, e)}, byDest + {(entry.to, e)};
      queued, out, stale := queued + {e}, out - {e}, stale - {(entry.to, e)};
    }

    /** Puts an entry in the queue, in place of the sender's oldest if it has too many. */
    method Enqueue(now: uint64, from: nat, to: nat, data: seq<byte>, unite: bool)
      returns (ghost slot: nat, ghost dropped: set<nat>)
      requires Sound()
      modifies this
      ensures Sound() && out == old(out) && (old(Valid()) ==> Valid())
      ensures Refuses(|data|, old(|From(queued, entries, from)|), old(|pool|), old(chunks)) ==> unchanged(this)
      ensures !Refuses(|data|, old(|From(queued, entries, from)|), old(|pool|), old(chunks)) ==>
                && IsDropped(old(From(queued, entries, from)), old(entries), dropped)
                && slot !in old(queued) - dropped && slot !in out
                && queued == old(queued) - dropped + {slot}
                && entries == old(entries)[slot := Entry(now, from, to, data, unite)]
                && stale == old(stale) - {(to, slot)}
                && (old(pool) != [] && dropped == {} ==> slot == old(pool)[|old(pool)| - 1])
    {
      slot, dropped := 0, {};
      if |data| > DATA_MAX {
        return;
      }
      hide Partition, Indexed, Fair, From, IsDropped;
      dropped := MakeRoom(from);
      IndexDomain(queued, entries, bySrc, byDest, stale);
      var ok, e := Take();
      if !ok {
        return;
      }
      slot := e;
      Insert(e, Entry(now, from, to, data, unite));
    }

    /** Drops every entry older than the expiration time, or from the future. */
    method Expire(now: uint64)
      requires Sound()
      modifies this
      ensures Sound() && out == old(out) && entries == old(entries) && chunks == old(chunks) && stale == old(stale)
      ensures queued == set q | q in old(queued) && !Expired(old(entries)[q], now)
      ensures forall q :: q in queued <==>
                          && q in old(queued)
                          && old(entries)[q].timestamp <= now <= old(entries)[q].timestamp + 3000
    {
      hide Partition, Fair;
      var left := bySrc;
      while left != {}
        invariant Consistent() && out == old(out) && entries == old(entries) && chunks == old(chunks) && stale == old(stale)
        invariant left <= bySrc
        invariant queued == set q | q in old(queued) && (!Expired(entries[q], now) || (entries[q].from, q) in left)
      {
        var p :| p in left;
        left := left - {p};
        if Expired(entries[p.1], now) {
          Release(p.1);
        }
      }
      FairSubset(old(queued), queued, entries);
    }

    /** Takes an entry off the index by sender; if it was queued for dest, it is checked out. */
    method CheckOut(q: nat, ghost dest: nat, ghost clean: bool)
      requires q in entries
      requires clean ==> Consistent() && queued <= entries.Keys && q in To(queued, entries, dest)
      modifies `bySrc, `queued, `out
      ensures queued == old(queued) - {q} && out == old(out) + {q}
      ensures clean ==>
        && queued <= entries.Keys && To(queued, entries, dest) == old(To(queued, entries, dest)) - {q}
        && Partition(chunks, pool, queued, out)
        && Indexed(queued, entries, bySrc, byDest - {(dest, q)}, stale)
        && Indexed(queued, entries, bySrc, byDest, stale + {(dest, q)})
    {
      hide Partition, Indexed, To;
      if clean {
        ToStep(queued, entries, dest, q);
        CheckOutStep(chunks, pool, queued, out, q);
        UnindexStep(queued, entries, bySrc, byDest, stale, q);
        StillListed(queued, entries, bySrc, byDest, stale, q);
      }
      bySrc := bySrc - {(entries[q].from, q)};
      queued, out := queued - {q}, out + {q};
    }

    /** Hands out up to max entries listed for a destination; when it stops at max, the last one stays listed. */
    method GetByDest(dest: nat, max: nat) returns (results: seq<nat>)
      requires Sound() && max > 0
      modifies this
      ensures entries == old(entries) && pool == old(pool) && chunks == old(chunks)
      ensures NoRepeats(results) && (forall q :: q in results ==> q in old(Listed(byDest, dest)))
      ensures |results| == if old(|Listed(byDest, dest)|) < max then old(|Listed(byDest, dest)|) else max
      ensures |results| < max ==> AsSet(results) == old(Listed(byDest, dest))
      ensures queued == old(queued) - AsSet(results) && out == old(out) + AsSet(results)
      ensures old(Clean(stale, dest)) ==>
                && old(Listed(byDest, dest)) == old(To(queued, entries, dest)) && Sound()
                && stale == old(stale) + if |results| < max then {} else {(dest, results[max - 1])}
      ensures old(Valid()) ==> (Valid() <==> old(|To(queued, entries, dest)|) < max)
    {
      hide Partition, Indexed, Fair, To, Handed, NoRepeats, AsSet, Listed, Clean;
      IndexDomain(queued, entries, bySrc, byDest, stale);
      DestEntries(queued, entries, bySrc, byDest, stale, dest);
      CleanAtRest(dest);
      ghost var clean, left := Clean(stale, dest), {};
      results, left := HandOut(Listed(byDest, dest), dest, max, clean);
      HandedEnd(old(Listed(byDest, dest)), left, results, old(queued), queued, old(out), out);
      if clean {
        FairSubset(old(queued), queued, entries);
      }
    }

    /** The loop of GetByDest. */
    method HandOut(listed: set<nat>, dest: nat, max: nat, ghost clean: bool)
      returns (results: seq<nat>, ghost left: set<nat>)
      requires listed <= entries.Keys && max > 0
      requires clean ==> Consistent() && queued <= entries.Keys && listed == To(queued, entries, dest)
      modifies `bySrc, `byDest, `queued, `out, `stale
      ensures Handed(listed, left, results, old(queued), queued, old(out), out)
      ensures |results| <= max && (|results| < max ==> left == {})
      ensures stale == old(stale) + if |results| < max then {} else {(dest, results[max - 1])}
      ensures clean ==> Consistent() && queued <= entries.Keys
    {
      hide Partition, Indexed, To, Handed;
      results := [];
      var todo := listed;
      HandedStart(listed, queued, out);
      while todo != {}
        invariant |results| < max && todo <= listed && stale == old(stale)
        invariant Handed(listed, todo, results, old(queued), queued, old(out), out)
        invariant clean ==> queued <= entries.Keys && Consistent() && todo == To(queued, entries, dest)
      {
        var q :| q in todo;
        HandedStep(listed, todo, results, old(queued), queued, old(out), out, q);
        CheckOut(q, dest, clean);
        results, todo := results + [q], todo - {q};
        if |results| == max {
          stale := stale + {(dest, q)};
          left := todo;
          return;
        }
        byDest := byDest - {(dest, q)};
      }
      left := {};
    }

    /** Takes back memory that was handed out. */
    method ReturnToPool(list: seq<nat>)
      requires Sound() && NoRepeats(list) && AsSet(list) <= out
      modifies `pool, `out
      ensures Sound() && pool == old(pool) + list && out == old(out) - AsSet(list)
    {
      hide Partition, Indexed, Fair;
      for i := 0 to |list|
        invariant Consistent() && pool == old(pool) + list[..i] && out == old(out) - AsSet(list[..i])
      {
        assert list[i] in list && list[i] !in list[..i] && list[..i + 1] == list[..i] + [list[i]];
        ReturnStep(chunks, pool, queued, out, list[i]);
        assert |pool| < CHUNK_SIZE * MAX_CHUNKS;
        pool := pool + [list[i]];
        out := out - {list[i]};
      }
      assert list[..|list|] == list;
    }
  }

  // ----- what a stale pair does

  /** A stale pair whose memory is reused hands the new entry, which is for somebody else, to whoever asks for dest. */
  method Misdeliver(q: SendQueue, dest: nat, now: uint64, from: nat, to: nat, data: seq<byte>, max: nat)
    returns (results: seq<nat>)
    requires q.Sound() && q.pool != [] && (dest, q.pool[|q.pool| - 1]) in q.stale
    requires to != dest && |data| <= DATA_MAX && |Listed(q.byDest, dest)| < max
    requires q.queued <= q.entries.Keys && |From(q.queued, q.entries, from)| < MAX_PER_SENDER
    modifies q
    ensures |results| == old(|Listed(q.byDest, dest)|)
    ensures var slot := old(q.pool[|q.pool| - 1]);
            slot in results && slot in q.entries && q.entries[slot] == Entry(now, from, to, data, false)
  {
    hide Partition, Indexed, Fair, NoRepeats, Listed, To, From;
    DestEntries(q.queued, q.entries, q.bySrc, q.byDest, q.stale, dest);
    ghost var queued, entries, stale := q.queued, q.entries, q.stale;
    ghost var slot, dropped := q.Enqueue(now, from, to, data, false);
    assert dropped == {} && q.queued == queued + {slot};
    IndexDomain(q.queued, q.entries, q.bySrc, q.byDest, q.stale);
    DestEntries(q.queued, q.entries, q.bySrc, q.byDest, q.stale, dest);
    SameListed(queued, entries, stale, slot, Entry(now, from, to, data, false), dest);
    results := q.GetByDest(dest, max);
    assert slot in AsSet(results);
  }

  /** Queueing an entry for somebody else does not change what is listed for dest. */
  lemma SameListed(queued: set<nat>, entries: map<nat, Entry>, stale: set<(nat, nat)>, slot: nat, e: Entry, dest: nat)
    requires queued <= entries.Keys && slot !in queued && e.to != dest && (dest, slot) in stale
    ensures To(queued + {slot}, entries[slot := e], dest) == To(queued, entries, dest)
    ensures Listed(stale - {(e.to, slot)}, dest) == Listed(stale, dest) && slot in Listed(stale, dest)
  {
    assert forall q :: q in Listed(stale, dest) <==> (dest, q) in stale;
    assert forall q :: q in Listed(stale - {(e.to, slot)}, dest) <==> (dest, q) in stale;
  }

  /** One message asked for with room for one result leaves a stale pair. */
  method LeaveStale(q: SendQueue, from: nat, to: nat) returns (ghost slot: nat)
    requires q.Valid() && q.queued == {} && q.out == {} && q.chunks == 0 && q.pool == []
    modifies q
    ensures q.Sound() && !q.Valid() && q.queued == {} && q.stale == {(to, slot)}
    ensures q.pool != [] && q.pool[|q.pool| - 1] == slot && Listed(q.byDest, to) == {slot}
  {
    hide Partition, Indexed, Fair, NoRepeats, To;
    IndexDomain(q.queued, q.entries, q.bySrc, q.byDest, q.stale);
    assert From(q.queued, q.entries, from) == {};
    ghost var dropped;
    slot, dropped := q.Enqueue(0, from, to, [], false);
    IndexDomain(q.queued, q.entries, q.bySrc, q.byDest, q.stale);
    DestEntries(q.queued, q.entries, q.bySrc, q.byDest, q.stale, to);
    OneEntry(q.queued, q.entries, to, slot);
    var results := q.GetByDest(to, 1);
    assert results[0] in results;
    assert results == [slot];
    q.ReturnToPool(results);
    DestEntries(q.queued, q.entries, q.bySrc, q.byDest, q.stale, to);
    StaleOnly(q.queued, q.entries, q.stale, to, slot);
  }

  lemma OneEntry(queued: set<nat>, entries: map<nat, Entry>, to: nat, slot: nat)
    requires queued == {slot} && slot in entries && entries[slot].to == to
    ensures To(queued, entries, to) == {slot}
  {
  }

  lemma StaleOnly(queued: set<nat>, entries: map<nat, Entry>, stale: set<(nat, nat)>, to: nat, slot: nat)
    requires queued == {} && stale == {(to, slot)}
    ensures To(queued, entries, to) + Listed(stale, to) == {slot}
  {
    assert (to, slot) in stale;
  }

  /** So in a run from an empty queue, an entry for 3 is handed to whoever asks for 2. */
  method MisdeliveryRun() returns (asked: nat, got: Entry)
    ensures asked == 2 && got == Entry(10, 4, 3, [9], false)
  {
    hide Partition, Indexed, Fair, Listed;
    var q := new SendQueue();
    ghost var slot := LeaveStale(q, 1, 2);
    var results := Misdeliver(q, 2, 10, 4, 3, [9], 5);
    assert results == [slot];
    asked, got := 2, q.entries[results[0]];
  }

  function AsSet(s: seq<nat>): set<nat> {
    set q | q in s
  }

  predicate Expired(e: Entry, now: uint64) {
    now < e.timestamp || now - e.timestamp > EXPIRATION
  }

  // ----- what the operations choose

  predicate IsOldest(sender: set<nat>, entries: map<nat, Entry>, oldest: nat)
    requires sender <= entries.Keys
  {
    oldest in sender && forall q :: q in sender ==> entries[oldest].timestamp <= entries[q].timestamp
  }

  predicate IsDropped(sender: set<nat>, entries: map<nat, Entry>, dropped: set<nat>)
    requires sender <= entries.Keys
  {
    if |sender| < MAX_PER_SENDER then dropped == {}
    else exists q :: q in sender && dropped == {q} && IsOldest(sender, entries, q)
  }

  /** An entry is refused if it is too long, or there is no memory left and none to free. */
  predicate Refuses(len: nat, count: nat, free: nat, chunks: nat) {
    len > DATA_MAX || (count < MAX_PER_SENDER && free == 0 && chunks >= MAX_CHUNKS)
  }

  /** The limits, written out: 1500 bytes, 16 entries per sender of which the oldest makes room, 8194 chunks. */
  lemma LimitsAre(sender: set<nat>, entries: map<nat, Entry>, dropped: set<nat>, len: nat, free: nat, chunks: nat)
    requires sender <= entries.Keys
    ensures Refuses(len, |sender|, free, chunks) <==> len > 1500 || (|sender| < 16 && free == 0 && chunks >= 8194)
    ensures |sender| < 16 ==> (IsDropped(sender, entries, dropped) <==> dropped == {})
    ensures |sender| >= 16 ==>
              (IsDropped(sender, entries, dropped) <==>
               exists q :: && q in sender && dropped == {q}
                           && forall r :: r in sender ==> entries[q].timestamp <= entries[r].timestamp)
  {
  }

  /** What every operation keeps: both indexes list the queued entries, no sender has more than 16 of them, and a slot is in
      one place only. */
  lemma SoundMeans(queue: SendQueue, sender: nat)
    requires queue.Sound()
    ensures queue.queued <= queue.entries.Keys
    ensures forall a, q :: (a, q) in queue.bySrc <==> q in queue.queued && queue.entries[q].from == a
    ensures forall a, q :: (a, q) in queue.byDest <==>
                           (q in queue.queued && queue.entries[q].to == a) || (a, q) in queue.stale
    ensures |set q | q in queue.queued && queue.entries[q].from == sender| <= 16
    ensures forall q :: q in queue.pool ==> q !in queue.queued && q !in queue.out
    ensures queue.queued !! queue.out
    ensures |queue.pool| + |queue.queued| + |queue.out| == 32 * queue.chunks <= 262208
  {
    hide NoRepeats;
    assert From(queue.queued, queue.entries, sender) == set q | q in queue.queued && queue.entries[q].from == sender;
  }

  // ----- the steps on memory

  lemma ReleaseStep(chunks: nat, pool: seq<nat>, queued: set<nat>, out: set<nat>, q: nat)
    requires Partition(chunks, pool, queued, out) && q in queued
    ensures Partition(chunks, pool + [q], queued - {q}, out) && |pool| < CHUNK_SIZE * MAX_CHUNKS
  {
    assert |queued - {q}| == |queued| - 1;
    assert forall x :: x in pool + [q] <==> x in pool || x == q;
  }

  lemma PopStep(chunks: nat, pool: seq<nat>, queued: set<nat>, out: set<nat>)
    requires Partition(chunks, pool, queued, out) && pool != []
    ensures var q := pool[|pool| - 1];
            q !in queued && q !in out && Partition(chunks, pool[..|pool| - 1], queued, out + {q})
  {
    var q, rest := pool[|pool| - 1], pool[..|pool| - 1];
    assert pool == rest + [q];
    assert forall x :: x in pool <==> x in rest || x == q;
    assert forall i :: 0 <= i < |rest| ==> rest[i] == pool[i] != q;
    assert q in pool && q !in rest && NoRepeats(rest);
  }

  function Rest(chunk: nat): seq<nat> {
    seq(CHUNK_SIZE - 1, i requires 0 <= i => CHUNK_SIZE * chunk + 1 + i)
  }

  lemma ChunkStep(chunks: nat, queued: set<nat>, out: set<nat>)
    requires Partition(chunks, [], queued, out) && chunks < MAX_CHUNKS
    ensures CHUNK_SIZE * chunks !in queued && CHUNK_SIZE * chunks !in out
    ensures Partition(chunks + 1, Rest(chunks), queued, out + {CHUNK_SIZE * chunks})
  {
    var first := CHUNK_SIZE * chunks;
    forall q ensures q in Rest(chunks) <==> first < q < first + CHUNK_SIZE {
      if first < q < first + CHUNK_SIZE {
        assert Rest(chunks)[q - first - 1] == q;
      }
    }
  }

  lemma InsertStep(chunks: nat, pool: seq<nat>, queued: set<nat>, out: set<nat>, q: nat)
    requires Partition(chunks, pool, queued, out) && q in out
    ensures q !in queued && Partition(chunks, pool, queued + {q}, out - {q})
  {
  }

  // ----- the steps on the indexes

  lemma UnindexStep(queued: set<nat>, entries: map<nat, Entry>, bySrc: set<(nat, nat)>, byDest: set<(nat, nat)>,
                    stale: set<(nat, nat)>, q: nat)
    requires Indexed(queued, entries, bySrc, byDest, stale) && q in queued
    ensures q in entries && (entries[q].to, q) in byDest
    ensures Indexed(queued - {q}, entries, bySrc - {(entries[q].from, q)}, byDest - {(entries[q].to, q)}, stale)
  {
  }

  /** An entry that leaves everything but the index by destination becomes a stale pair there. */
  lemma StillListed(queued: set<nat>, entries: map<nat, Entry>, bySrc: set<(nat, nat)>, byDest: set<(nat, nat)>,
                    stale: set<(nat, nat)>, q: nat)
    requires Indexed(queued, entries, bySrc, byDest, stale) && q in queued
    ensures q in entries
    ensures Indexed(queued - {q}, entries, bySrc - {(entries[q].from, q)}, byDest, stale + {(entries[q].to, q)})
  {
  }

  lemma IndexStep(queued: set<nat>, entries: map<nat, Entry>, bySrc: set<(nat, nat)>, byDest: set<(nat, nat)>,
                  stale: set<(nat, nat)>, q: nat, e: Entry)
    requires Indexed(queued, entries, bySrc, byDest, stale) && q !in queued
    ensures Indexed(queued + {q}, entries[q := e], bySrc + {(e.from, q)}, byDest + {(e.to, q)}, stale - {(e.to, q)})
  {
  }

  lemma SenderEntries(queued: set<nat>, entries: map<nat, Entry>, bySrc: set<(nat, nat)>, byDest: set<(nat, nat)>,
                      stale: set<(nat, nat)>, from: nat, found: set<nat>)
    requires Indexed(queued, entries, bySrc, byDest, stale)
    requires found == set p | p in bySrc && p.0 == from :: p.1
    ensures found == From(queued, entries, from)
  {
    forall q | q in From(queued, entries, from) ensures q in found {
      assert (from, q) in bySrc;
    }
  }

  lemma IndexDomain(queued: set<nat>, entries: map<nat, Entry>, bySrc: set<(nat, nat)>, byDest: set<(nat, nat)>,
                    stale: set<(nat, nat)>)
    requires Indexed(queued, entries, bySrc, byDest, stale)
    ensures queued <= entries.Keys && forall a :: From(queued, entries, a) <= queued
  {
  }

  /** How far getByDest is: results are out of the queue, left are still to go. */
  ghost predicate Handed(all: set<nat>, left: set<nat>, results: seq<nat>, queued0: set<nat>, queued: set<nat>,
                         out0: set<nat>, out: set<nat>)
  {
    && NoRepeats(results) && Split(all, AsSet(results), left) && |results| + |left| == |all|
    && queued == queued0 - AsSet(results) && out == out0 + AsSet(results)
  }

  lemma HandedStart(all: set<nat>, queued: set<nat>, out: set<nat>)
    ensures Handed(all, all, [], queued, queued, out, out)
  {
  }

  lemma HandedStep(all: set<nat>, left: set<nat>, results: seq<nat>, queued0: set<nat>, queued: set<nat>,
                   out0: set<nat>, out: set<nat>, q: nat)
    requires Handed(all, left, results, queued0, queued, out0, out) && q in left
    ensures Handed(all, left - {q}, results + [q], queued0, queued - {q}, out0, out + {q})
  {
    NoRepeatsStep(results, q);
    SplitStep(all, AsSet(results), left, q);
    assert |left - {q}| == |left| - 1;
  }

  lemma HandedEnd(all: set<nat>, left: set<nat>, results: seq<nat>, queued0: set<nat>, queued: set<nat>,
                  out0: set<nat>, out: set<nat>)
    requires Handed(all, left, results, queued0, queued, out0, out)
    ensures NoRepeats(results) && (forall q :: q in results ==> q in all) && |results| + |left| == |all|
    ensures left == {} ==> AsSet(results) == all
    ensures queued == queued0 - AsSet(results) && out == out0 + AsSet(results) && queued <= queued0
  {
    forall q | q in results ensures q in all {
      assert q in AsSet(results);
    }
  }

  predicate Split(all: set<nat>, seen: set<nat>, left: set<nat>) {
    seen + left == all && seen !! left
  }

  lemma SplitStart(all: set<nat>)
    ensures Split(all, {}, all)
  {
  }

  lemma SplitStep(all: set<nat>, seen: set<nat>, left: set<nat>, q: nat)
    requires Split(all, seen, left) && q in left
    ensures Split(all, seen + {q}, left - {q}) && q !in seen && q in all && |seen + {q}| == |seen| + 1 && seen <= all
  {
  }

  lemma SplitEnd(all: set<nat>, seen: set<nat>)
    requires Split(all, seen, {})
    ensures seen == all
  {
  }

  lemma OldestStep(seen: set<nat>, entries: map<nat, Entry>, oldest: nat, q: nat)
    requires seen + {q} <= entries.Keys && q !in seen && (|seen| > 0 ==> IsOldest(seen, entries, oldest))
    ensures |seen| > 0 ==> oldest in entries
    ensures |seen| == 0 || entries[q].timestamp < entries[oldest].timestamp ==> IsOldest(seen + {q}, entries, q)
    ensures |seen| > 0 && entries[q].timestamp >= entries[oldest].timestamp ==> IsOldest(seen + {q}, entries, oldest)
  {
    if |seen| == 0 {
      assert seen == {};
    }
  }

  lemma OldestIn(sender: set<nat>, entries: map<nat, Entry>, oldest: nat)
    requires sender <= entries.Keys && IsOldest(sender, entries, oldest)
    ensures oldest in sender
  {
  }

  lemma FewerFrom(queued: set<nat>, entries: map<nat, Entry>, dropped: set<nat>, from: nat)
    requires queued <= entries.Keys && Fair(queued, entries)
    requires IsDropped(From(queued, entries, from), entries, dropped)
    ensures Fair(queued - dropped, entries) && |From(queued - dropped, entries, from)| < MAX_PER_SENDER
  {
    FairSubset(queued, queued - dropped, entries);
    assert From(queued - dropped, entries, from) == From(queued, entries, from) - dropped;
  }

  lemma FairSubset(queued: set<nat>, fewer: set<nat>, entries: map<nat, Entry>)
    requires fewer <= queued <= entries.Keys && Fair(queued, entries)
    ensures Fair(fewer, entries)
  {
    forall a ensures |From(fewer, entries, a)| <= MAX_PER_SENDER {
      Smaller(From(fewer, entries, a), From(queued, entries, a));
    }
  }

  lemma Smaller(x: set<nat>, y: set<nat>)
    requires x <= y
    ensures |x| <= |y|
  {
    assert y == x + (y - x);
  }

  lemma FairStep(queued: set<nat>, entries: map<nat, Entry>, q: nat, e: Entry)
    requires queued <= entries.Keys && Fair(queued, entries) && q !in queued
    requires |From(queued, entries, e.from)| < MAX_PER_SENDER
    ensures Fair(queued + {q}, entries[q := e])
  {
    var queued', entries' := queued + {q}, entries[q := e];
    forall a ensures |From(queued', entries', a)| <= MAX_PER_SENDER {
      FromStep(queued, entries, q, e, a);
    }
  }

  lemma FromStep(queued: set<nat>, entries: map<nat, Entry>, q: nat, e: Entry, a: nat)
    requires queued <= entries.Keys && q !in queued
    ensures |From(queued + {q}, entries[q := e], a)| == |From(queued, entries, a)| + if a == e.from then 1 else 0
  {
    assert From(queued + {q}, entries[q := e], a) == From(queued, entries, a) + if a == e.from then {q} else {};
  }

  lemma DestEntries(queued: set<nat>, entries: map<nat, Entry>, bySrc: set<(nat, nat)>, byDest: set<(nat, nat)>,
                    stale: set<(nat, nat)>, to: nat)
    requires Indexed(queued, entries, bySrc, byDest, stale)
    ensures Listed(byDest, to) <= entries.Keys && forall q :: q in Listed(byDest, to) ==> (to, q) in byDest
    ensures Clean(stale, to) ==> Listed(byDest, to) == To(queued, entries, to)
    ensures Listed(byDest, to) == To(queued, entries, to) + Listed(stale, to)
  {
    forall q ensures q in Listed(byDest, to) <==> (to, q) in byDest {
    }
    forall q ensures q in Listed(stale, to) <==> (to, q) in stale {
    }
  }

  lemma CleanAtRest(dest: nat)
    ensures Clean({}, dest)
  {
  }

  lemma ToStep(queued: set<nat>, entries: map<nat, Entry>, to: nat, q: nat)
    requires queued <= entries.Keys && q in To(queued, entries, to)
    ensures q in queued && entries[q].to == to && To(queued - {q}, entries, to) == To(queued, entries, to) - {q}
  {
  }

  lemma CheckOutStep(chunks: nat, pool: seq<nat>, queued: set<nat>, out: set<nat>, q: nat)
    requires Partition(chunks, pool, queued, out) && q in queued
    ensures Partition(chunks, pool, queued - {q}, out + {q})
  {
  }

  lemma ReturnStep(chunks: nat, pool: seq<nat>, queued: set<nat>, out: set<nat>, q: nat)
    requires Partition(chunks, pool, queued, out) && q in out
    ensures Partition(chunks, pool + [q], queued, out - {q}) && |pool| < CHUNK_SIZE * MAX_CHUNKS
  {
    assert |out - {q}| == |out| - 1;
    assert forall x :: x in pool + [q] <==> x in pool || x == q;
  }

  lemma NoRepeatsStep(s: seq<nat>, q: nat)
    requires NoRepeats(s) && q !in s
    ensures NoRepeats(s + [q]) && AsSet(s + [q]) == AsSet(s) + {q}
  {
  }
}
