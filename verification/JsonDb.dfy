/** The controller's database: writers and erasers at lock granularity beside the summary thread. */
module JsonDb {
  import opened Common
  import opened Summaries

  datatype Network = Network(members: Stored, summary: Summary)

  /** An eraseNetwork call under way: the members it still has to erase. */
  datatype Eraser = Eraser(network: nat, left: seq<nat>)

  datatype State = State(
    networks: map<nat, Network>,
    index: map<nat, set<nat>>,    // member -> networks
    todo: seq<nat>,               // networks queued for the summary thread
    mine: seq<nat>,               // networks the thread has taken
    writers: multiset<nat>,       // networks written, and not queued yet
    erasers: map<nat, Eraser>)    // by caller

  /** A record read from a file; one with an id of 0 is dropped. */
  datatype Record = OfNetwork(n: nat) | OfMember(n: nat, a: nat, m: Option<Member>) {
    predicate Names(network: nat) {
      n != 0 && n == network && (OfMember? ==> a != 0)
    }

    predicate NamesMember(network: nat, member: nat) {
      OfMember? && Names(network) && a == member
    }
  }

  /** The record is the last one on its member. */
  predicate Final(records: seq<Record>, j: nat)
    requires j < |records|
  {
    && records[j].OfMember? && records[j].NamesMember(records[j].n, records[j].a)
    && forall l :: j < l < |records| ==> !records[l].NamesMember(records[j].n, records[j].a)
  }

  datatype Step =
    | SaveNetwork(n: nat)
    | SaveMember(n: nat, a: nat, m: Option<Member>)
    | EraseMember(n: nat, a: nat)
    | Enqueue(n: nat)
    | BeginErase(caller: nat, ids: seq<nat>, n: nat)
    | EraseNext(caller: nat)
    | FinishErase(caller: nat)
    | Swap
    | Recompute

  function Find(networks: map<nat, Network>, n: nat): Network {
    if n in networks then networks[n] else Network(map[], DEFAULT)
  }

  function NetworksOf(index: map<nat, set<nat>>, a: nat): set<nat> {
    if a in index then index[a] else {}
  }

  /** The index lists the network under the member. */
  predicate Holds(index: map<nat, set<nat>>, a: nat, n: nat) {
    a in index && n in index[a]
  }

  predicate Has(networks: map<nat, Network>, n: nat, a: nat) {
    n in networks && a in networks[n].members
  }

  /** Takes a member out of a network and out of the index. */
  function WithoutMember(s: State, n: nat, a: nat): State {
    var s' := s.(index := s.index[a := NetworksOf(s.index, a) - {n}]);
    if n in s.networks && a in s.networks[n].members then
      s'.(networks := s.networks[n := s.networks[n].(members := s.networks[n].members - {a})])
    else s'
  }

  /** The networks on the thread's list are summarised afresh, the others left alone. */
  ghost predicate Recomputed(before: map<nat, Network>, list: seq<nat>, after: map<nat, Network>) {
    && after.Keys == before.Keys
    && forall n :: n in before ==>
         && after[n].members == before[n].members
         && (if n in list then Exact(after[n].members, after[n].summary) else after[n].summary == before[n].summary)
  }

  ghost predicate Next(s: State, s': State, step: Step) {
    match step
    case SaveNetwork(n) =>
      s' == s.(networks := s.networks[n := Find(s.networks, n)], writers := s.writers + multiset{n})
    case SaveMember(n, a, m) =>
      var w := Find(s.networks, n);
      s' == s.(networks := s.networks[n := w.(members := w.members[a := m])],
               index := s.index[a := NetworksOf(s.index, a) + {n}], writers := s.writers + multiset{n})
    case EraseMember(n, a) =>
      var hit := n in s.networks && a in s.networks[n].members;
      s' == WithoutMember(s, n, a).(writers := if hit then s.writers + multiset{n} else s.writers)
    case Enqueue(n) =>
      && n in s.writers
      && s' == s.(writers := s.writers - multiset{n}, todo := if n in s.todo then s.todo else s.todo + [n])
    case BeginErase(caller, ids, n) =>
      && caller !in s.erasers && n in s.networks && (forall a :: a in ids <==> a in s.networks[n].members)
      && s' == s.(erasers := s.erasers[caller := Eraser(n, ids)])
    case EraseNext(caller) =>
      && caller in s.erasers && s.erasers[caller].left != []
      && var e := s.erasers[caller];
         s' == WithoutMember(s, e.network, e.left[0]).(erasers := s.erasers[caller := Eraser(e.network, e.left[1..])])
    case FinishErase(caller) =>
      && caller in s.erasers && s.erasers[caller].left == []
      && s' == s.(networks := s.networks - {s.erasers[caller].network}, erasers := s.erasers - {caller})
    case Swap =>
      s.mine == [] && s.todo != [] && s' == s.(todo := [], mine := s.todo)
    case Recompute =>
      s.mine != [] && Recomputed(s.networks, s.mine, s'.networks) && s' == s.(networks := s'.networks, mine := [])
  }

  // ----- the invariant

  predicate Erasing(s: State, n: nat) {
    exists caller :: caller in s.erasers && s.erasers[caller].network == n
  }

  /** The network's summary is exact, or somebody still has it to see to. */
  ghost predicate Covered(s: State, n: nat)
    requires n in s.networks
  {
    || Exact(s.networks[n].members, s.networks[n].summary)
    || n in s.todo || n in s.mine || n in s.writers || Erasing(s, n)
  }

  predicate NoRepeats(todo: seq<nat>) {
    forall i, j :: 0 <= i < j < |todo| ==> todo[i] != todo[j]
  }

  ghost predicate Inv(s: State) {
    && NoRepeats(s.todo)
    && (forall n :: n in s.networks ==> Covered(s, n))
    && (forall n, a :: n in s.networks && a in s.networks[n].members ==> n in NetworksOf(s.index, a))
  }

  /** After loading from the file system every network is queued. */
  ghost predicate Init(s: State) {
    && NoRepeats(s.todo) && (forall n :: n in s.networks ==> n in s.todo)
    && s.mine == [] && s.writers == multiset{} && s.erasers == map[]
    && (forall n, a :: n in s.networks && a in s.networks[n].members ==> n in NetworksOf(s.index, a))
  }

  lemma StillErasing(s: State, s': State, n: nat)
    requires Erasing(s, n)
    requires forall c :: c in s.erasers && s.erasers[c].network == n ==> c in s'.erasers && s'.erasers[c].network == n
    ensures Erasing(s', n)
  {
    var c :| c in s.erasers && s.erasers[c].network == n;
    assert c in s'.erasers;
  }

  lemma EraserKeepsCovered(s: State, s': State, step: Step, n: nat)
    requires Inv(s) && Next(s, s', step) && n in s'.networks && (step.BeginErase? || step.EraseNext? || step.FinishErase?)
    ensures Covered(s', n)
  {
    hide Exact, NoRepeats;
    assert n in s.networks && Covered(s, n);
    if Erasing(s, n) {
      StillErasing(s, s', n);
    } else if step.EraseNext? {
      assert s.erasers[step.caller].network != n;
    }
  }

  lemma KeepsCovered(s: State, s': State, step: Step, n: nat)
    requires Inv(s) && Next(s, s', step) && n in s'.networks
    ensures Covered(s', n)
  {
    if step.BeginErase? || step.EraseNext? || step.FinishErase? {
      EraserKeepsCovered(s, s', step, n);
    } else {
      OthersKeepCovered(s, s', step, n);
    }
  }

  lemma OthersKeepCovered(s: State, s': State, step: Step, n: nat)
    requires Inv(s) && Next(s, s', step) && n in s'.networks && !(step.BeginErase? || step.EraseNext? || step.FinishErase?)
    ensures Covered(s', n)
  {
    hide Exact, NoRepeats;
    assert n in s.networks ==> Covered(s, n);
    assert Erasing(s', n) <==> Erasing(s, n);
    if step.Enqueue? && step.n == n {
      assert n in s'.todo;
    }
    if n !in s.networks && step.SaveNetwork? {
      assert n in s'.writers;
    }
  }

  lemma KeepsIndexed(s: State, s': State, step: Step, n: nat, a: nat)
    requires Inv(s) && Next(s, s', step) && n in s'.networks && a in s'.networks[n].members
    ensures n in NetworksOf(s'.index, a)
  {
    hide Covered, Exact, NoRepeats;
    if n in s.networks && a in s.networks[n].members {
      assert n in NetworksOf(s.index, a);
    }
  }

  lemma NextKeeps(s: State, s': State, step: Step)
    requires Inv(s) && Next(s, s', step)
    ensures Inv(s')
  {
    hide Next, Covered, NoRepeats, NetworksOf;
    KeepsNoRepeats(s, s', step);
    forall n | n in s'.networks ensures Covered(s', n) {
      KeepsCovered(s, s', step, n);
    }
    forall n, a | n in s'.networks && a in s'.networks[n].members ensures n in NetworksOf(s'.index, a) {
      KeepsIndexed(s, s', step, n, a);
    }
  }

  lemma KeepsNoRepeats(s: State, s': State, step: Step)
    requires NoRepeats(s.todo) && Next(s, s', step)
    ensures NoRepeats(s'.todo)
  {
    hide Recomputed;
  }

  // ----- whole runs

  ghost predicate IsRun(states: seq<State>, steps: seq<Step>) {
    && |states| == |steps| + 1 && Init(states[0])
    && forall i :: 0 <= i < |steps| ==> Next(states[i], states[i + 1], steps[i])
  }

  /** In every state of every interleaving, a network with an inexact summary is queued, taken, written or being erased. */
  lemma {:induction false} RunKeeps(states: seq<State>, steps: seq<Step>, k: nat)
    requires IsRun(states, steps) && k < |states|
    ensures Inv(states[k])
  {
    hide Next, Init, Inv;
    if k == 0 {
      InitHolds(states[0]);
    } else {
      RunKeeps(states, steps, k - 1);
      assert Next(states[k - 1], states[k], steps[k - 1]);
      NextKeeps(states[k - 1], states[k], steps[k - 1]);
    }
  }

  lemma InitHolds(s: State)
    requires Init(s)
    ensures Inv(s)
  {
    hide Exact;
  }

  predicate Quiescent(s: State) {
    s.todo == [] && s.mine == [] && s.writers == multiset{} && s.erasers == map[]
  }

  /** When nothing is under way, every cached summary is what recomputation would give, and the index is complete. */
  lemma QuiescentExact(states: seq<State>, steps: seq<Step>, k: nat, n: nat, recomputed: Summary)
    requires IsRun(states, steps) && k < |states| && Quiescent(states[k])
    requires n in states[k].networks && Exact(states[k].networks[n].members, recomputed)
    ensures states[k].networks[n].summary == recomputed
    ensures forall a :: a in states[k].networks[n].members ==> n in NetworksOf(states[k].index, a)
  {
    hide IsRun, Exact;
    var s := states[k];
    RunKeeps(states, steps, k);
    assert Covered(s, n);
    ExactUnique(s.networks[n].members, s.networks[n].summary, recomputed);
  }

  /** Once writers and erasers are done, one round of the thread over both lists makes every summary exact. */
  lemma ThreadCatchesUp(s: State, s1: State, s2: State, s3: State)
    requires Inv(s) && s.writers == multiset{} && s.erasers == map[]
    requires if s.mine == [] then s1 == s else Next(s, s1, Recompute)
    requires if s1.todo == [] then s2 == s1 && s3 == s1 else Next(s1, s2, Swap) && Next(s2, s3, Recompute)
    ensures Quiescent(s3) && s3.networks.Keys == s.networks.Keys
    ensures forall n :: n in s3.networks ==> Exact(s3.networks[n].members, s3.networks[n].summary)
  {
    hide Exact, Inv;
    if s.mine != [] {
      NextKeeps(s, s1, Recompute);
    }
    if s1.todo != [] {
      NextKeeps(s1, s2, Swap);
      NextKeeps(s2, s3, Recompute);
    }
    forall n | n in s3.networks ensures Exact(s3.networks[n].members, s3.networks[n].summary) {
      CoveredAtRest(s3, n);
    }
  }

  lemma CoveredAtRest(s: State, n: nat)
    requires Inv(s) && Quiescent(s) && n in s.networks
    ensures Exact(s.networks[n].members, s.networks[n].summary)
  {
    hide Exact;
    assert Covered(s, n);
  }

  /** The thread's loop over its list, holding the lock on the networks throughout. */
  method RecomputeAll(networks: map<nat, Network>, list: seq<nat>, now: nat) returns (r: map<nat, Network>)
    ensures Recomputed(networks, list, r)
  {
    hide Exact;
    r := networks;
    for i := 0 to |list|
      invariant Recomputed(networks, list[..i], r)
    {
      var n := list[i];
      assert list[..i + 1] == list[..i] + [n];
      if n in r {
        var s, _ := Summarize(r[n].members, now);
        r := r[n := r[n].(summary := s)];
      }
    }
    assert list[..|list|] == list;
  }

  // ----- loading

  ghost predicate Loaded(records: seq<Record>, networks: map<nat, Network>) {
    && (forall n :: n in networks <==> exists j :: 0 <= j < |records| && records[j].Names(n))
    && (forall n, a :: Has(networks, n, a) <==> exists j :: 0 <= j < |records| && records[j].NamesMember(n, a))
    && (forall j :: 0 <= j < |records| && Final(records, j) ==>
          Has(networks, records[j].n, records[j].a) && networks[records[j].n].members[records[j].a] == records[j].m)
    && (forall n :: n in networks ==> networks[n].summary == DEFAULT)
  }

  lemma LoadedMeans(records: seq<Record>, networks: map<nat, Network>)
    requires Loaded(records, networks)
    ensures forall n :: n in networks <==> exists j :: 0 <= j < |records| && records[j].Names(n)
    ensures forall n, a :: Has(networks, n, a) <==> exists j :: 0 <= j < |records| && records[j].NamesMember(n, a)
    ensures forall j :: 0 <= j < |records| && Final(records, j) ==>
              && Has(networks, records[j].n, records[j].a)
              && networks[records[j].n].members[records[j].a] == records[j].m
    ensures forall n :: n in networks ==> networks[n].summary == DEFAULT
  {
  }

  lemma NothingLoaded()
    ensures Loaded([], map[])
  {
  }

  function WithRecord(networks: map<nat, Network>, r: Record): map<nat, Network> {
    if r.n == 0 || (r.OfMember? && r.a == 0) then networks
    else
      var w := Find(networks, r.n);
      networks[r.n := if r.OfMember? then w.(members := w.members[r.a := r.m]) else w]
  }

  lemma LoadedOne(records: seq<Record>, networks: map<nat, Network>, r: Record)
    requires Loaded(records, networks)
    ensures Loaded(records + [r], WithRecord(networks, r))
  {
    var all, after := records + [r], WithRecord(networks, r);
    assert all[|records|] == r;
    LoadedNames(records, networks, r);
    LoadedMembers(records, networks, r);
    forall j | 0 <= j < |all| && Final(all, j)
      ensures Has(after, all[j].n, all[j].a) && after[all[j].n].members[all[j].a] == all[j].m
    {
      if j < |records| {
        StillFinal(records, r, j);
      }
    }
  }

  lemma StillFinal(records: seq<Record>, r: Record, j: nat)
    requires j < |records| && Final(records + [r], j)
    ensures Final(records, j) && !r.NamesMember(records[j].n, records[j].a)
  {
    var all := records + [r];
    assert all[j] == records[j] && all[|records|] == r;
    forall l | j < l < |records| ensures !records[l].NamesMember(records[j].n, records[j].a) {
      assert all[l] == records[l];
    }
  }

  lemma LoadedNames(records: seq<Record>, networks: map<nat, Network>, r: Record)
    requires Loaded(records, networks)
    ensures forall n :: n in WithRecord(networks, r) <==>
                        exists j :: 0 <= j < |records + [r]| && (records + [r])[j].Names(n)
  {
    hide Final, Has;
    var all := records + [r];
    forall n ensures n in WithRecord(networks, r) <==> exists j :: 0 <= j < |all| && all[j].Names(n) {
      assert all[|records|] == r;
      if j :| 0 <= j < |records| && records[j].Names(n) {
        assert all[j].Names(n);
      }
    }
  }

  lemma LoadedMembers(records: seq<Record>, networks: map<nat, Network>, r: Record)
    requires Loaded(records, networks)
    ensures forall n, a :: Has(WithRecord(networks, r), n, a) <==>
                           exists j :: 0 <= j < |records + [r]| && (records + [r])[j].NamesMember(n, a)
  {
    hide Final;
    var all := records + [r];
    forall n, a
      ensures Has(WithRecord(networks, r), n, a) <==> exists j :: 0 <= j < |all| && all[j].NamesMember(n, a)
    {
      assert all[|records|] == r;
      HasAfter(networks, r);
      if j :| 0 <= j < |records| && records[j].NamesMember(n, a) {
        assert all[j].NamesMember(n, a);
      }
    }
  }

  lemma NothingIndexed()
    ensures forall a, n :: Holds(map[], a, n) <==> Has(map[], n, a)
  {
  }

  lemma HasAfter(networks: map<nat, Network>, r: Record)
    ensures forall n, a :: Has(WithRecord(networks, r), n, a) <==> Has(networks, n, a) || r.NamesMember(n, a)
  {
  }

  lemma IndexedOne(networks: map<nat, Network>, index: map<nat, set<nat>>, r: Record)
    requires forall a, n :: Holds(index, a, n) <==> Has(networks, n, a)
    ensures forall a, n ::
              Has(WithRecord(networks, r), n, a) <==>
              Holds(if r.OfMember? && r.n != 0 && r.a != 0
                    then index[r.a := NetworksOf(index, r.a) + {r.n}] else index, a, n)
  {
    hide Holds, NetworksOf;
    HasAfter(networks, r);
    if r.OfMember? {
      IndexAdds(index, index[r.a := NetworksOf(index, r.a) + {r.n}], r.a, r.n);
    }
    hide Has, WithRecord;
  }

  lemma LoadedInit(s: State)
    requires NoRepeats(s.todo) && (forall n :: n in s.networks ==> n in s.todo)
    requires s.mine == [] && s.writers == multiset{} && s.erasers == map[]
    requires forall a, n :: Holds(s.index, a, n) <==> Has(s.networks, n, a)
    ensures Init(s)
  {
    forall n, a | n in s.networks && a in s.networks[n].members ensures n in NetworksOf(s.index, a) {
      assert Has(s.networks, n, a);
      assert Holds(s.index, a, n);
    }
  }

  lemma IndexAdds(index: map<nat, set<nat>>, after: map<nat, set<nat>>, a: nat, n: nat)
    requires after == index[a := NetworksOf(index, a) + {n}]
    ensures forall b, w :: Holds(after, b, w) <==> Holds(index, b, w) || (b == a && w == n)
  {
    forall b, w ensures Holds(after, b, w) <==> Holds(index, b, w) || (b == a && w == n) {
      assert b != a ==> (b in after <==> b in index);
    }
  }

  lemma IndexDrops(index: map<nat, set<nat>>, after: map<nat, set<nat>>, a: nat, n: nat)
    requires after == index[a := NetworksOf(index, a) - {n}]
    ensures forall b, w :: Holds(after, b, w) <==> Holds(index, b, w) && !(b == a && w == n)
  {
    forall b, w ensures Holds(after, b, w) <==> Holds(index, b, w) && !(b == a && w == n) {
      assert b != a ==> (b in after <==> b in index);
    }
  }

  // ----- the operations, each one made of such steps

  class JsonDb {
    var networks: map<nat, Network>
    var index: map<nat, set<nat>>
    var todo: seq<nat>
    var mine: seq<nat>
    ghost var writers: multiset<nat>
    ghost var erasers: map<nat, Eraser>

    ghost function Now(): State
      reads this
    {
      State(networks, index, todo, mine, writers, erasers)
    }

    /** Loads records in the order they are read, where a later one replaces an earlier one, and queues every network. */
    constructor (records: seq<Record>)
      ensures Init(Now()) && Inv(Now())
      ensures forall n :: n in networks <==> exists j :: 0 <= j < |records| && records[j].Names(n)
      ensures forall n, a :: Has(networks, n, a) <==> exists j :: 0 <= j < |records| && records[j].NamesMember(n, a)
      ensures forall j :: 0 <= j < |records| && Final(records, j) ==>
                && Has(networks, records[j].n, records[j].a)
                && networks[records[j].n].members[records[j].a] == records[j].m
      ensures forall a, n :: Holds(index, a, n) <==> Has(networks, n, a)
      ensures forall n :: n in networks ==> n in todo && networks[n].summary == Summary([], [], 0, 0, 0)
    {
      hide Loaded, Final, Has, Holds, Inv, Init, NetworksOf;
      networks, index, todo, mine, writers, erasers := map[], map[], [], [], multiset{}, map[];
      new;
      NothingLoaded();
      NothingIndexed();
      for i := 0 to |records|
        invariant Loaded(records[..i], networks) && forall a, n :: Holds(index, a, n) <==> Has(networks, n, a)
        invariant mine == [] && writers == multiset{} && erasers == map[]
      {
        var r := records[i];
        LoadedOne(records[..i], networks, r);
        IndexedOne(networks, index, r);
        assert records[..i + 1] == records[..i] + [r];
        if r.n != 0 && (r.OfMember? ==> r.a != 0) {
          var w := Find(networks, r.n);
          if r.OfMember? {
            w := w.(members := w.members[r.a := r.m]);
            index := index[r.a := NetworksOf(index, r.a) + {r.n}];
          }
          networks := networks[r.n := w];
        }
      }
      assert records[..|records|] == records;
      LoadedMeans(records, networks);
      todo := Listed(networks.Keys);
      LoadedInit(Now());
      InitHolds(Now());
    }

    /** Queues a network for the summary thread, once. */
    method RecomputeSummaryInfo(n: nat)
      requires Inv(Now()) && n in writers
      modifies `todo, `writers
      ensures Inv(Now()) && Next(old(Now()), Now(), Enqueue(n))
      ensures todo == old(todo) + if n in old(todo) then [] else [n]
      ensures writers == old(writers) - multiset{n}
    {
      if n !in todo {
        todo := todo + [n];
      }
      writers := writers - multiset{n};
      NextKeeps(old(Now()), Now(), Enqueue(n));
    }

    method SaveNetwork(n: nat)
      requires Inv(Now())
      modifies `networks, `todo, `writers
      ensures Inv(Now())
      ensures networks ==
              if n in old(networks) then old(networks) else old(networks)[n := Network(map[], Summary([], [], 0, 0, 0))]
      ensures todo == old(todo) + if n in old(todo) then [] else [n]
      ensures writers == old(writers)
    {
      hide Inv;
      networks := networks[n := Find(networks, n)];
      writers := writers + multiset{n};
      NextKeeps(old(Now()), Now(), Step.SaveNetwork(n));
      RecomputeSummaryInfo(n);
      assert writers == old(writers);
    }

    /** Writes a member's record, and the network still has to be queued. */
    method Store(n: nat, a: nat, m: Option<Member>)
      requires Inv(Now())
      modifies `networks, `index, `writers
      ensures networks.Keys == old(networks).Keys + {n}
      ensures n in networks && networks[n] ==
              if n in old(networks) then Network(old(networks)[n].members[a := m], old(networks)[n].summary)
              else Network(map[a := m], Summary([], [], 0, 0, 0))
      ensures forall w :: w in networks && w != n ==> networks[w] == old(networks)[w]
      ensures forall b, w :: Holds(index, b, w) <==> Holds(old(index), b, w) || (b == a && w == n)
      ensures writers == old(writers) + multiset{n} && Inv(Now())
    {
      hide Inv, Next, Holds, NetworksOf;
      SaveStep(Now(), n, a, m);
      var w := Find(networks, n);
      networks := networks[n := w.(members := w.members[a := m])];
      index := index[a := NetworksOf(index, a) + {n}];
      IndexAdds(old(index), index, a, n);
      writers := writers + multiset{n};
    }

    method SaveNetworkMember(n: nat, a: nat, m: Option<Member>)
      requires Inv(Now())
      modifies `networks, `index, `todo, `writers
      ensures networks.Keys == old(networks).Keys + {n}
      ensures n in networks && networks[n] ==
              if n in old(networks) then Network(old(networks)[n].members[a := m], old(networks)[n].summary)
              else Network(map[a := m], Summary([], [], 0, 0, 0))
      ensures forall w :: w in networks && w != n ==> networks[w] == old(networks)[w]
      ensures forall b, w :: Holds(index, b, w) <==> Holds(old(index), b, w) || (b == a && w == n)
      ensures todo == old(todo) + if n in old(todo) then [] else [n]
      ensures writers == old(writers) && Inv(Now())
    {
      hide Inv, Next, Holds, NetworksOf;
      Store(n, a, m);
      RecomputeSummaryInfo(n);
      assert writers == old(writers);
    }

    method EraseNetworkMember(n: nat, a: nat) returns (found: bool)
      requires Inv(Now())
      modifies `networks, `index, `todo, `writers
      ensures found == (n in old(networks) && a in old(networks)[n].members)
      ensures networks.Keys == old(networks).Keys
      ensures n in networks ==> networks[n] == Network(old(networks)[n].members - {a}, old(networks)[n].summary)
      ensures forall w :: w in networks && w != n ==> networks[w] == old(networks)[w]
      ensures forall b, w :: Holds(index, b, w) <==> Holds(old(index), b, w) && !(b == a && w == n)
      ensures todo == old(todo) + if found && n !in old(todo) then [n] else []
      ensures writers == old(writers) && Inv(Now())
    {
      hide Inv, Next, Holds, NetworksOf;
      EraseMemberStep(Now(), n, a);
      index := index[a := NetworksOf(index, a) - {n}];
      IndexDrops(old(index), index, a, n);
      found := n in networks && a in networks[n].members;
      if found {
        networks := networks[n := networks[n].(members := networks[n].members - {a})];
        writers := writers + multiset{n};
        RecomputeSummaryInfo(n);
        assert writers == old(writers);
      } else if n in networks {
        assert networks[n].members - {a} == networks[n].members;
      }
    }

    /** Erases a member as part of erasing its network. */
    method EraseQuietly(n: nat, a: nat, ghost left: seq<nat>, ghost caller: nat)
      requires Inv(Now()) && n in networks && caller in erasers && left != [] && left[0] == a
      requires erasers[caller] == Eraser(n, left)
      modifies `networks, `index, `erasers
      ensures erasers == old(erasers)[caller := Eraser(n, left[1..])]
      ensures n in networks && networks - {n} == old(networks) - {n}
      ensures networks[n] == Network(old(networks)[n].members - {a}, old(networks)[n].summary)
      ensures forall b, w :: Holds(index, b, w) <==> Holds(old(index), b, w) && !(b == a && w == n)
      ensures Inv(Now())
    {
      hide Inv, Next, Holds, NetworksOf;
      EraseStep(Now(), caller);
      index := index[a := NetworksOf(index, a) - {n}];
      IndexDrops(old(index), index, a, n);
      if a in networks[n].members {
        networks := networks[n := networks[n].(members := networks[n].members - {a})];
      }
      erasers := erasers[caller := Eraser(n, left[1..])];
    }

    /** Erases a network's members one by one and then the network, without a new summary. */
    method EraseNetwork(n: nat, ghost caller: nat) returns (found: bool)
      requires Inv(Now()) && caller !in erasers
      modifies `networks, `index, `erasers
      ensures found == (n in old(networks)) && networks == old(networks) - {n}
      ensures forall b, w ::
                Holds(index, b, w) <==>
                Holds(old(index), b, w) && !(w == n && n in old(networks) && b in old(networks)[n].members)
      ensures erasers == old(erasers) && Inv(Now())
    {
      hide Inv, Next, NetworksOf, Holds;
      if n !in networks {
        return false;
      }
      var ids := Listed(networks[n].members.Keys);
      BeginStep(Now(), caller, ids, n);
      erasers := erasers[caller := Eraser(n, ids)];
      ghost var others := networks - {n};
      for i := 0 to |ids|
        invariant Inv(Now()) && erasers == old(erasers)[caller := Eraser(n, ids[i..])]
        invariant n in networks && networks - {n} == others
        invariant forall b, w :: Holds(index, b, w) <==> Holds(old(index), b, w) && !(w == n && b in ids[..i])
      {
        EraseQuietly(n, ids[i], ids[i..], caller);
        assert ids[i..][1..] == ids[i + 1..] && ids[..i + 1] == ids[..i] + [ids[i]];
      }
      assert ids[..|ids|] == ids;
      FinishStep(Now(), caller);
      networks := networks - {n};
      erasers := erasers - {caller};
      assert erasers == old(erasers);
      found := true;
    }

    /** One round of the summary thread: take what is queued and make it exact. */
    method ThreadRound(now: nat)
      requires Inv(Now()) && mine == []
      modifies `networks, `todo, `mine
      ensures Inv(Now()) && mine == [] && todo == [] && networks.Keys == old(networks).Keys
      ensures forall n :: n in networks ==>
                && networks[n].members == old(networks)[n].members
                && (n in old(todo) ==> Exact(networks[n].members, networks[n].summary))
                && (n !in old(todo) ==> networks[n].summary == old(networks)[n].summary)
    {
      hide Inv, Exact;
      if todo != [] {
        mine, todo := todo, [];
        NextKeeps(old(Now()), Now(), Swap);
        ghost var before := Now();
        networks := RecomputeAll(networks, mine, now);
        mine := [];
        NextKeeps(before, Now(), Recompute);
      }
    }
  }

  method Listed(ids: set<nat>) returns (list: seq<nat>)
    ensures forall a :: a in list <==> a in ids
    ensures NoRepeats(list)
  {
    list := [];
    var left := ids;
    while left != {}
      invariant left <= ids && NoRepeats(list) && forall a :: a in list <==> a in ids && a !in left
    {
      var a :| a in left;
      list := list + [a];
      left := left - {a};
    }
  }

  lemma SaveStep(s: State, n: nat, a: nat, m: Option<Member>)
    requires Inv(s)
    ensures var w := Find(s.networks, n);
            Inv(s.(networks := s.networks[n := w.(members := w.members[a := m])],
                   index := s.index[a := NetworksOf(s.index, a) + {n}], writers := s.writers + multiset{n}))
  {
    hide Inv;
    var w := Find(s.networks, n);
    var s' := s.(networks := s.networks[n := w.(members := w.members[a := m])],
                 index := s.index[a := NetworksOf(s.index, a) + {n}], writers := s.writers + multiset{n});
    NextKeeps(s, s', SaveMember(n, a, m));
  }

  lemma EraseMemberStep(s: State, n: nat, a: nat)
    requires Inv(s)
    ensures Inv(WithoutMember(s, n, a).(writers :=
                  if n in s.networks && a in s.networks[n].members then s.writers + multiset{n} else s.writers))
  {
    hide Inv;
    var hit := n in s.networks && a in s.networks[n].members;
    var s' := WithoutMember(s, n, a).(writers := if hit then s.writers + multiset{n} else s.writers);
    NextKeeps(s, s', EraseMember(n, a));
  }

  lemma BeginStep(s: State, caller: nat, ids: seq<nat>, n: nat)
    requires Inv(s) && caller !in s.erasers && n in s.networks && forall a :: a in ids <==> a in s.networks[n].members
    ensures Inv(s.(erasers := s.erasers[caller := Eraser(n, ids)]))
  {
    hide Inv;
    NextKeeps(s, s.(erasers := s.erasers[caller := Eraser(n, ids)]), BeginErase(caller, ids, n));
  }

  lemma EraseStep(s: State, caller: nat)
    requires Inv(s) && caller in s.erasers && s.erasers[caller].left != []
    ensures var e := s.erasers[caller];
            Inv(WithoutMember(s, e.network, e.left[0]).(erasers := s.erasers[caller := Eraser(e.network, e.left[1..])]))
  {
    hide Inv;
    var e := s.erasers[caller];
    var s' := WithoutMember(s, e.network, e.left[0]).(erasers := s.erasers[caller := Eraser(e.network, e.left[1..])]);
    NextKeeps(s, s', EraseNext(caller));
  }

  lemma FinishStep(s: State, caller: nat)
    requires Inv(s) && caller in s.erasers && s.erasers[caller].left == []
    ensures Inv(s.(networks := s.networks - {s.erasers[caller].network}, erasers := s.erasers - {caller}))
  {
    hide Inv;
    var s' := s.(networks := s.networks - {s.erasers[caller].network}, erasers := s.erasers - {caller});
    NextKeeps(s, s', FinishErase(caller));
  }
}
