/** The chained hash table: an array of buckets, each a linked list of nodes. */
module Hashtable {
  import opened Common

  class Node<K, V> {
    const k: K
    var v: V
    var next: Node?<K, V>

    constructor (k: K, v: V, next: Node?<K, V>)
      ensures this.k == k && this.v == v && this.next == next
    {
      this.k, this.v, this.next := k, v, next;
    }
  }

  ghost function NodesOf<K, V>(ch: seq<Node<K, V>>): set<Node<K, V>> {
    set n | n in ch
  }

  /** head points at a list of exactly these nodes. */
  ghost predicate IsList<K, V>(head: Node?<K, V>, ch: seq<Node<K, V>>)
    reads NodesOf(ch)`next
  {
    && head == (if ch == [] then null else ch[0])
    && forall j {:trigger ch[j].next} :: 0 <= j < |ch| ==> ch[j].next == if j + 1 < |ch| then ch[j + 1] else null
  }

  ghost function NodesIn<K, V>(chains: seq<seq<Node<K, V>>>): set<Node<K, V>> {
    set i, n | 0 <= i < |chains| && n in chains[i] :: n
  }

  /** Every bucket head points at its chain. */
  ghost predicate AllLists<K, V>(heads: seq<Node?<K, V>>, chains: seq<seq<Node<K, V>>>)
    reads NodesIn(chains)`next
  {
    && |heads| == |chains|
    && forall i :: 0 <= i < |chains| ==> NodesOf(chains[i]) <= NodesIn(chains) && IsList(heads[i], chains[i])
  }

  lemma ListOf<K, V>(heads: seq<Node?<K, V>>, chains: seq<seq<Node<K, V>>>, i: nat)
    requires AllLists(heads, chains) && i < |chains|
    ensures |heads| == |chains| && IsList(heads[i], chains[i])
  {
  }

  /** Replacing one bucket by a list keeps the others. */
  lemma ReplaceList<K, V>(heads: seq<Node?<K, V>>, chains: seq<seq<Node<K, V>>>, i: nat, head: Node?<K, V>,
                          ch: seq<Node<K, V>>)
    requires |heads| == |chains| && i < |chains|
    requires forall x :: 0 <= x < |chains| && x != i ==> IsList(heads[x], chains[x])
    requires IsList(head, ch)
    ensures AllLists(heads[i := head], chains[i := ch])
  {
    var chains' := chains[i := ch];
    forall x | 0 <= x < |chains'| ensures NodesOf(chains'[x]) <= NodesIn(chains') {
    }
  }

  /** Distinct nodes of the table, all with a hash that belongs in bucket i of m. */
  ghost predicate IsBucket<K, V>(hc: K -> nat, ch: seq<Node<K, V>>, i: nat, m: nat, nodes: set<Node<K, V>>)
    requires m > 0
  {
    && (forall n :: n in ch ==> n in nodes && hc(n.k) % m == i)
    && (forall x, y :: 0 <= x < y < |ch| ==> ch[x] != ch[y])
  }

  /** The chains hold every node once, in the bucket of its hash. */
  ghost predicate Placed<K, V>(hc: K -> nat, chains: seq<seq<Node<K, V>>>, nodes: set<Node<K, V>>) {
    && |chains| > 0
    && (forall i :: 0 <= i < |chains| ==> IsBucket(hc, chains[i], i, |chains|, nodes))
    && (forall n :: n in nodes ==> n in chains[hc(n.k) % |chains|])
  }

  /** The nodes have exactly these keys, each once. */
  ghost predicate UniqueKeys<K, V>(nodes: set<Node<K, V>>, keys: set<K>) {
    && (forall n :: n in nodes ==> n.k in keys)
    && (forall n, n' :: n in nodes && n' in nodes && n.k == n'.k ==> n == n')
    && (forall k :: k in keys ==> exists n :: n in nodes && n.k == k)
  }

  lemma ListCons<K, V>(b: Node<K, V>, ch: seq<Node<K, V>>)
    requires IsList(b.next, ch)
    ensures IsList(b, [b] + ch)
  {
    var l := [b] + ch;
    forall j | 0 <= j < |l| ensures l[j].next == if j + 1 < |l| then l[j + 1] else null {
      if j > 0 {
        assert ch[j - 1].next == if j < |ch| then ch[j] else null;
      }
    }
  }

  lemma PushList<K, V>(heads: seq<Node?<K, V>>, chains: seq<seq<Node<K, V>>>, i: nat, b: Node<K, V>)
    requires AllLists(heads, chains) && i < |chains| && b.next == heads[i]
    ensures AllLists(heads[i := b], chains[i := [b] + chains[i]])
    ensures NodesIn(chains[i := [b] + chains[i]]) == NodesIn(chains) + {b}
  {
    ListCons(b, chains[i]);
    ReplaceList(heads, chains, i, b, [b] + chains[i]);
    var chains' := chains[i := [b] + chains[i]];
    assert b in chains'[i];
    forall n | n in NodesIn(chains) ensures n in NodesIn(chains') {
      var x :| 0 <= x < |chains| && n in chains[x];
      assert n in chains'[x];
    }
  }

  /** The nodes hold the values of the map. */
  ghost predicate Values<K, V>(nodes: set<Node<K, V>>, m: map<K, V>)
    reads nodes`v
  {
    forall n :: n in nodes ==> n.k in m && m[n.k] == n.v
  }

  lemma AddValue<K, V>(nodes: set<Node<K, V>>, m: map<K, V>, b: Node<K, V>)
    requires Values(nodes, m) && b.k !in m
    ensures Values(nodes + {b}, m[b.k := b.v])
    ensures |m[b.k := b.v]| == |m| + 1 && m[b.k := b.v].Keys == m.Keys + {b.k}
  {
    var m' := m[b.k := b.v];
    assert m'.Keys == m.Keys + {b.k};
    assert |m'| == |m'.Keys| && |m| == |m.Keys|;
  }

  lemma PushPlaced<K, V>(hc: K -> nat, chains: seq<seq<Node<K, V>>>, nodes: set<Node<K, V>>, b: Node<K, V>)
    requires Placed(hc, chains, nodes) && b !in nodes
    ensures var i := hc(b.k) % |chains|;
            Placed(hc, chains[i := [b] + chains[i]], nodes + {b})
  {
    var i := hc(b.k) % |chains|;
    var chains' := chains[i := [b] + chains[i]];
    var nodes' := nodes + {b};
    forall x | 0 <= x < |chains'| ensures IsBucket(hc, chains'[x], x, |chains'|, nodes') {
      assert IsBucket(hc, chains[x], x, |chains|, nodes);
    }
  }

  lemma PushKey<K, V>(nodes: set<Node<K, V>>, keys: set<K>, b: Node<K, V>)
    requires UniqueKeys(nodes, keys) && b.k !in keys
    ensures UniqueKeys(nodes + {b}, keys + {b.k})
  {
    var nodes' := nodes + {b};
    assert b in nodes';
    forall k | k in keys ensures exists n :: n in nodes' && n.k == k {
      var n :| n in nodes && n.k == k;
      assert n in nodes';
    }
  }

  lemma DropPlaced<K, V>(hc: K -> nat, chains: seq<seq<Node<K, V>>>, nodes: set<Node<K, V>>, i: nat, j: nat)
    requires Placed(hc, chains, nodes) && i < |chains| && j < |chains[i]|
    ensures var b := chains[i][j];
            b in nodes && Placed(hc, chains[i := chains[i][..j] + chains[i][j + 1..]], nodes - {b})
  {
    var ch, b := chains[i], chains[i][j];
    var ch' := ch[..j] + ch[j + 1..];
    var chains' := chains[i := ch'];
    var nodes' := nodes - {b};
    assert IsBucket(hc, ch, i, |chains|, nodes);
    assert b in ch;
    forall x | 0 <= x < |chains'| ensures IsBucket(hc, chains'[x], x, |chains'|, nodes') {
      assert IsBucket(hc, chains[x], x, |chains|, nodes);
    }
    forall n | n in nodes' ensures n in chains'[hc(n.k) % |chains'|] {
      if n in ch {
        var x :| 0 <= x < |ch| && ch[x] == n;
        assert n == if x < j then ch'[x] else ch'[x - 1];
      }
    }
  }

  lemma DropKey<K, V>(nodes: set<Node<K, V>>, keys: set<K>, b: Node<K, V>)
    requires UniqueKeys(nodes, keys) && b in nodes
    ensures UniqueKeys(nodes - {b}, keys - {b.k})
  {
    forall k | k in keys - {b.k} ensures exists n :: n in nodes - {b} && n.k == k {
      var n :| n in nodes && n.k == k;
      assert n in nodes - {b};
    }
  }

  /** A node is in the chain of its hash and in no other. */
  lemma OnlyChain<K, V>(hc: K -> nat, chains: seq<seq<Node<K, V>>>, nodes: set<Node<K, V>>, n: Node<K, V>, i: nat)
    requires Placed(hc, chains, nodes) && i < |chains| && n in chains[i]
    ensures n in nodes && hc(n.k) % |chains| == i && forall x :: 0 <= x < |chains| && x != i ==> n !in chains[x]
  {
    assert IsBucket(hc, chains[i], i, |chains|, nodes);
    forall x | 0 <= x < |chains| && x != i ensures n !in chains[x] {
      assert IsBucket(hc, chains[x], x, |chains|, nodes);
    }
  }

  /** The finite map a table stands for, its nodes, and the chain of each bucket. */
  datatype View<K, V> = View(M: map<K, V>, nodes: set<Node<K, V>>, chains: seq<seq<Node<K, V>>>)

  /** Every node is in the chain of its hash, once, and the nodes have the keys of the map. */
  ghost predicate Coherent<K, V>(hc: K -> nat, g: View<K, V>) {
    Placed(hc, g.chains, g.nodes) && UniqueKeys(g.nodes, g.M.Keys)
  }

  /** The buckets link exactly the chains and the nodes hold the values. */
  ghost predicate Stored<K, V>(heads: seq<Node?<K, V>>, g: View<K, V>)
    reads g.nodes
  {
    NodesIn(g.chains) <= g.nodes && AllLists(heads, g.chains) && Values(g.nodes, g.M)
  }

  lemma StoredList<K, V>(heads: seq<Node?<K, V>>, g: View<K, V>, i: nat)
    requires Stored(heads, g) && i < |g.chains|
    ensures |heads| == |g.chains| && IsList(heads[i], g.chains[i])
    ensures Values(g.nodes, g.M) && NodesIn(g.chains) <= g.nodes && AllLists(heads, g.chains)
  {
  }

  ghost function Pushed<K, V>(g: View<K, V>, b: Node<K, V>, v: V, i: nat): View<K, V>
    requires i < |g.chains|
  {
    View(g.M[b.k := v], g.nodes + {b}, g.chains[i := [b] + g.chains[i]])
  }

  lemma PushView<K, V>(hc: K -> nat, g: View<K, V>, heads: seq<Node?<K, V>>, b: Node<K, V>, i: nat)
    requires Coherent(hc, g) && Stored(heads, g) && b !in g.nodes && b.k !in g.M
    requires |g.chains| == |heads| > 0 && i == hc(b.k) % |g.chains| && b.next == heads[i]
    ensures Coherent(hc, Pushed(g, b, b.v, i)) && Stored(heads[i := b], Pushed(g, b, b.v, i))
    ensures |Pushed(g, b, b.v, i).M| == |g.M| + 1
  {
    hide Placed, UniqueKeys, AllLists, Values, NodesIn;
    PushPlaced(hc, g.chains, g.nodes, b);
    PushKey(g.nodes, g.M.Keys, b);
    PushList(heads, g.chains, i, b);
    AddValue(g.nodes, g.M, b);
  }

  lemma BucketNodes<K, V>(hc: K -> nat, g: View<K, V>, i: nat)
    requires Coherent(hc, g) && i < |g.chains|
    ensures IsBucket(hc, g.chains[i], i, |g.chains|, g.nodes)
  {
  }

  lemma LastIsNode<K, V>(hc: K -> nat, g: View<K, V>, i: nat, j: nat)
    requires Coherent(hc, g) && i < |g.chains| && j < |g.chains[i]|
    ensures g.chains[i][j] in g.nodes && (j > 0 ==> g.chains[i][j - 1] in g.nodes)
  {
    BucketNodes(hc, g, i);
    assert g.chains[i][j] in g.chains[i];
    assert j > 0 ==> g.chains[i][j - 1] in g.chains[i];
  }

  ghost function Without<T>(ch: seq<T>, j: nat): seq<T>
    requires j < |ch|
  {
    ch[..j] + ch[j + 1..]
  }

  ghost function Dropped<K, V>(g: View<K, V>, i: nat, j: nat): View<K, V>
    requires i < |g.chains| && j < |g.chains[i]|
  {
    var b := g.chains[i][j];
    View(g.M - {b.k}, g.nodes - {b}, g.chains[i := Without(g.chains[i], j)])
  }

  lemma DropView<K, V>(hc: K -> nat, g: View<K, V>, i: nat, j: nat)
    requires Coherent(hc, g) && Values(g.nodes, g.M) && i < |g.chains| && j < |g.chains[i]|
    ensures var g' := Dropped(g, i, j);
            && Coherent(hc, g') && Values(g'.nodes, g'.M)
            && NodesIn(g'.chains) <= g'.nodes && |g'.M| == |g.M| - 1
  {
    var b, g' := g.chains[i][j], Dropped(g, i, j);
    DropPlaced(hc, g.chains, g.nodes, i, j);
    DropKey(g.nodes, g.M.Keys, b);
    assert g'.M.Keys == g.M.Keys - {b.k};
    assert |g'.M| == |g'.M.Keys| && |g.M| == |g.M.Keys|;
    forall n | n in NodesIn(g'.chains) ensures n in g'.nodes {
      var x :| 0 <= x < |g'.chains| && n in g'.chains[x];
      assert IsBucket(hc, g'.chains[x], x, |g'.chains|, g'.nodes);
    }
  }

  /** Unlinks node j of a list whose predecessor is lastb. */
  method Unlink<K, V>(head: Node?<K, V>, lastb: Node?<K, V>, b: Node<K, V>, ghost ch: seq<Node<K, V>>, ghost j: nat)
    returns (newHead: Node?<K, V>)
    requires IsList(head, ch) && j < |ch| && ch[j] == b && lastb == (if j == 0 then null else ch[j - 1])
    requires forall x, y :: 0 <= x < y < |ch| ==> ch[x] != ch[y]
    modifies (if lastb == null then {} else {lastb})`next
    ensures IsList(newHead, Without(ch, j))
    ensures newHead == (if lastb == null then b.next else head)
  {
    ghost var l := Without(ch, j);
    if lastb == null {
      newHead := b.next;
    } else {
      lastb.next := b.next;
      newHead := head;
    }
    forall x | 0 <= x < |l| ensures l[x].next == if x + 1 < |l| then l[x + 1] else null {
      if x + 1 < j {
        assert ch[x].next == ch[x + 1];
      } else if x >= j {
        assert ch[x + 1].next == if x + 2 < |ch| then ch[x + 2] else null;
      }
    }
  }

  /** Unlink in one bucket of a table, the others keeping their lists. */
  method UnlinkIn<K, V>(ghost hc: K -> nat, ghost g: View<K, V>, head: Node?<K, V>, lastb: Node?<K, V>, b: Node<K, V>,
                        ghost heads: seq<Node?<K, V>>, ghost i: nat, ghost j: nat) returns (newHead: Node?<K, V>)
    requires Coherent(hc, g) && AllLists(heads, g.chains) && i < |g.chains| == |heads| && head == heads[i]
    requires j < |g.chains[i]| && g.chains[i][j] == b && lastb == (if j == 0 then null else g.chains[i][j - 1])
    modifies (if lastb == null then {} else {lastb})`next
    ensures AllLists(heads[i := newHead], g.chains[i := Without(g.chains[i], j)])
    ensures lastb != null ==> newHead == head
  {
    hide Placed, UniqueKeys;
    ghost var ch := g.chains[i];
    ListOf(heads, g.chains, i);
    BucketNodes(hc, g, i);
    newHead := Unlink(head, lastb, b, ch, j);
    forall x | 0 <= x < |g.chains| && x != i ensures IsList(heads[x], g.chains[x]) {
      if lastb != null {
        assert lastb in ch;
        OnlyChain(hc, g.chains, g.nodes, lastb, i);
      }
      assert old(IsList(heads[x], g.chains[x]));
    }
    ReplaceList(heads, g.chains, i, newHead, Without(ch, j));
  }

  /** The nodes moved so far by a rehash, and the lists they are in now. */
  ghost predicate Rehashed<K, V>(hc: K -> nat, heads: seq<Node?<K, V>>, chains: seq<seq<Node<K, V>>>, done: set<Node<K, V>>)
    reads done
  {
    NodesIn(chains) <= done && Placed(hc, chains, done) && AllLists(heads, chains)
  }

  /** One step of _grow: pushes a node onto the front of its new bucket. */
  method Relink<K, V>(hc: K -> nat, b: Node<K, V>, nt: array<Node?<K, V>>, ghost chains: seq<seq<Node<K, V>>>,
                      ghost done: set<Node<K, V>>)
    returns (ghost chains': seq<seq<Node<K, V>>>)
    requires nt.Length == |chains| > 0 && Rehashed(hc, nt[..], chains, done) && b !in done
    modifies b`next, nt
    ensures nt.Length == |chains'| == |chains| && Rehashed(hc, nt[..], chains', done + {b})
  {
    hide Placed, AllLists, NodesIn;
    var nidx := hc(b.k) % nt.Length;
    ghost var heads := nt[..];
    b.next := nt[nidx];
    PushPlaced(hc, chains, done, b);
    PushList(heads, chains, nidx, b);
    nt[nidx] := b;
    assert nt[..] == heads[nidx := b];
    chains' := chains[nidx := [b] + chains[nidx]];
  }

  /** The inner loop of _grow: moves one old bucket. */
  method MoveBucket<K, V>(hc: K -> nat, head: Node?<K, V>, ghost ch: seq<Node<K, V>>, nt: array<Node?<K, V>>,
                          ghost chains: seq<seq<Node<K, V>>>, ghost done: set<Node<K, V>>)
    returns (ghost chains': seq<seq<Node<K, V>>>)
    requires IsList(head, ch) && (forall x, y :: 0 <= x < y < |ch| ==> ch[x] != ch[y]) && NodesOf(ch) !! done
    requires nt.Length == |chains| > 0 && Rehashed(hc, nt[..], chains, done)
    modifies NodesOf(ch)`next, nt
    ensures nt.Length == |chains'| == |chains| && Rehashed(hc, nt[..], chains', done + NodesOf(ch))
  {
    hide Rehashed;
    chains' := chains;
    var b := head;
    ghost var p := 0;
    assert done + NodesOf(ch[..0]) == done;
    assert ch[0..] == ch;
    while b != null
      invariant 0 <= p <= |ch| && IsList(b, ch[p..])
      invariant nt.Length == |chains'| == |chains| && Rehashed(hc, nt[..], chains', done + NodesOf(ch[..p]))
      decreases |ch| - p
    {
      assert b == ch[p];
      var nb := b.next;
      ListTail(b, ch[p..]);
      assert ch[p..][1..] == ch[p + 1..];
      chains' := Relink(hc, b, nt, chains', done + NodesOf(ch[..p]));
      assert done + NodesOf(ch[..p]) + {b} == done + NodesOf(ch[..p + 1]);
      b := nb;
      p := p + 1;
    }
    assert ch[..p] == ch;
  }

  lemma ListTail<K, V>(b: Node<K, V>, ch: seq<Node<K, V>>)
    requires IsList(b, ch)
    ensures ch != [] && b == ch[0] && IsList(b.next, ch[1..])
  {
    forall j | 0 <= j < |ch[1..]| ensures ch[1..][j].next == if j + 1 < |ch[1..]| then ch[1..][j + 1] else null {
      assert ch[j + 1].next == if j + 2 < |ch| then ch[j + 2] else null;
    }
  }

  lemma ChainsDisjoint<K, V>(hc: K -> nat, g: View<K, V>, x: nat, y: nat)
    requires Coherent(hc, g) && x < |g.chains| && y < |g.chains| && x != y
    ensures NodesOf(g.chains[x]) !! NodesOf(g.chains[y])
  {
    BucketNodes(hc, g, x);
    BucketNodes(hc, g, y);
  }

  lemma NotInPrefix<K, V>(hc: K -> nat, g: View<K, V>, i: nat, n: Node<K, V>)
    requires Coherent(hc, g) && i < |g.chains| && n in g.chains[i]
    ensures n !in NodesIn(g.chains[..i])
  {
    forall x | 0 <= x < i ensures n !in g.chains[..i][x] {
      OnlyChain(hc, g.chains, g.nodes, n, i);
    }
  }

  lemma PrefixDisjoint<K, V>(hc: K -> nat, g: View<K, V>, i: nat)
    requires Coherent(hc, g) && i < |g.chains|
    ensures NodesOf(g.chains[i]) !! NodesIn(g.chains[..i])
  {
    hide Coherent, NodesIn;
    forall n | n in NodesOf(g.chains[i]) ensures n !in NodesIn(g.chains[..i]) {
      NotInPrefix(hc, g, i, n);
    }
  }

  lemma PrefixGrows<K, V>(chains: seq<seq<Node<K, V>>>, i: nat)
    requires i < |chains|
    ensures NodesIn(chains[..i]) + NodesOf(chains[i]) == NodesIn(chains[..i + 1])
  {
    var a, b := NodesIn(chains[..i]), NodesIn(chains[..i + 1]);
    forall n | n in a ensures n in b {
      var x :| 0 <= x < i && n in chains[..i][x];
      assert n in chains[..i + 1][x];
    }
    forall n | n in NodesOf(chains[i]) ensures n in b {
      assert n in chains[..i + 1][i];
    }
  }

  /** The outer loop of _grow: moves all buckets into the new array. */
  method MoveAll<K, V>(hc: K -> nat, heads: seq<Node?<K, V>>, nt: array<Node?<K, V>>, ghost g: View<K, V>)
    returns (ghost chains: seq<seq<Node<K, V>>>)
    requires Coherent(hc, g) && AllLists(heads, g.chains) && |heads| == |g.chains|
    requires nt.Length > 0 && forall i :: 0 <= i < nt.Length ==> nt[i] == null
    modifies NodesIn(g.chains)`next, nt
    ensures nt.Length == |chains| && Rehashed(hc, nt[..], chains, NodesIn(g.chains))
  {
    hide Coherent, NodesIn, Rehashed, AllLists;
    chains := seq(nt.Length, _ => []);
    EmptyTable(hc, nt[..], chains);
    EmptyPrefix(g.chains);
    forall x | 0 <= x < |heads| ensures IsList(heads[x], g.chains[x]) {
      ListOf(heads, g.chains, x);
    }
    for i := 0 to |heads|
      invariant nt.Length == |chains| && Rehashed(hc, nt[..], chains, NodesIn(g.chains[..i]))
      invariant forall x :: i <= x < |heads| ==> IsList(heads[x], g.chains[x])
    {
      PrefixDisjoint(hc, g, i);
      PrefixGrows(g.chains, i);
      BucketNodes(hc, g, i);
      ChainNodes(g.chains, i);
      forall x | i < x < |heads| ensures NodesOf(g.chains[x]) !! NodesOf(g.chains[i]) {
        ChainsDisjoint(hc, g, i, x);
      }
      chains := MoveBucket(hc, heads[i], g.chains[i], nt, chains, NodesIn(g.chains[..i]));
    }
    assert g.chains[..|heads|] == g.chains;
  }

  lemma ChainNodes<K, V>(chains: seq<seq<Node<K, V>>>, i: nat)
    requires i < |chains|
    ensures NodesOf(chains[i]) <= NodesIn(chains)
  {
  }

  lemma RehashDone<K, V>(hc: K -> nat, heads: seq<Node?<K, V>>, g: View<K, V>, chains: seq<seq<Node<K, V>>>)
    requires Coherent(hc, g) && NodesIn(g.chains) <= g.nodes && Values(g.nodes, g.M)
    requires Rehashed(hc, heads, chains, NodesIn(g.chains))
    ensures Coherent(hc, g.(chains := chains)) && Stored(heads, g.(chains := chains))
  {
    forall n | n in g.nodes ensures n in NodesIn(g.chains) {
      assert n in g.chains[hc(n.k) % |g.chains|];
    }
    assert NodesIn(g.chains) == g.nodes;
  }

  lemma NoNodes<K, V>(hc: K -> nat, g: View<K, V>)
    requires Coherent(hc, g) && |g.M| == 0
    ensures g.M == map[] && g.nodes == {}
  {
    assert g.M.Keys == {};
  }

  ghost function EmptyView<K, V>(bc: nat): View<K, V> {
    View(map[], {}, seq(bc, _ => []))
  }

  lemma EmptyHolds<K, V>(hc: K -> nat, heads: seq<Node?<K, V>>, bc: nat)
    requires |heads| == bc > 0 && forall i :: 0 <= i < bc ==> heads[i] == null
    ensures Coherent(hc, EmptyView<K, V>(bc)) && Stored(heads, EmptyView(bc))
  {
  }

  lemma EmptyPrefix<K, V>(chains: seq<seq<Node<K, V>>>)
    ensures NodesIn(chains[..0]) == {}
  {
  }

  lemma EmptyTable<K, V>(hc: K -> nat, heads: seq<Node?<K, V>>, chains: seq<seq<Node<K, V>>>)
    requires |heads| == |chains| > 0 && forall i :: 0 <= i < |chains| ==> heads[i] == null && chains[i] == []
    ensures Rehashed(hc, heads, chains, {})
  {
  }

  class Hashtable<K(==), V> {
    const hc: K -> nat
    var t: array<Node?<K, V>>
    var s: nat

    /** What the table stands for. */
    ghost var g: View<K, V>

    ghost predicate Valid()
      reads this, t, g.nodes
    {
      && Coherent(hc, g)
      && 0 < t.Length == |g.chains|
      && Stored(t[..], g)
      && s == |g.M|
    }

    constructor (hc: K -> nat, bc: nat)
      requires bc > 0
      ensures Valid() && g.M == map[] && fresh(t) && g.nodes == {} && this.hc == hc && t.Length == bc
    {
      this.hc := hc;
      t := new Node?<K, V>[bc](_ => null);
      s := 0;
      g := EmptyView(bc);
    }

    lemma Keys(k: K)
      requires Valid()
      ensures t.Length == |g.chains| > 0
      ensures k in g.M <==> exists n :: n in g.chains[hc(k) % t.Length] && n.k == k
      ensures forall n :: n in g.nodes && n.k == k ==> k in g.M && n.v == g.M[k] && n in g.chains[hc(k) % t.Length]
    {
      hide IsList, AllLists;
      if k in g.M {
        var n :| n in g.nodes && n.k == k;
        assert n in g.chains[hc(n.k) % |g.chains|];
      }
      var i := hc(k) % t.Length;
      assert IsBucket(hc, g.chains[i], i, |g.chains|, g.nodes);
    }

    /** The walk that get, contains, set and operator[] share. */
    method Find(k: K) returns (b: Node?<K, V>)
      requires Valid()
      ensures b == null <==> k !in g.M
      ensures b != null ==> b in g.nodes && b.k == k && b.v == g.M[k]
    {
      hide Placed, UniqueKeys, AllLists;
      Keys(k);
      var i := hc(k) % t.Length;
      ListOf(t[..], g.chains, i);
      b := Walk(t[i], k, g.chains[i]);
    }

    static method Walk(head: Node?<K, V>, k: K, ghost ch: seq<Node<K, V>>) returns (b: Node?<K, V>)
      requires IsList(head, ch)
      ensures b == null ==> forall n :: n in ch ==> n.k != k
      ensures b != null ==> b in ch && b.k == k
    {
      ghost var j := 0;
      b := head;
      while b != null
        invariant 0 <= j <= |ch| && b == (if j < |ch| then ch[j] else null)
        invariant forall x :: 0 <= x < j ==> ch[x].k != k
        decreases |ch| - j
      {
        if b.k == k {
          return;
        }
        b := b.next;
        j := j + 1;
      }
    }

    method Get(k: K) returns (r: Option<V>)
      requires Valid()
      ensures r == if k in g.M then Some(g.M[k]) else None
    {
      hide Placed, UniqueKeys, AllLists;
      var b := Find(k);
      r := if b == null then None else Some(b.v);
    }

    /** Overwrites the value of a key that is present. */
    method Update(b: Node<K, V>, v: V)
      requires Valid() && b in g.nodes
      modifies this, b
      ensures Valid() && g.M == old(g.M)[b.k := v]
      ensures t == old(t) && g.nodes == old(g.nodes) && g.chains == old(g.chains)
    {
      hide Placed, UniqueKeys, AllLists;
      Unique(b);
      b.v := v;
      g := g.(M := g.M[b.k := v]);
      assert g.M.Keys == old(g.M.Keys);
    }

    lemma Unique(b: Node<K, V>)
      requires Valid() && b in g.nodes
      ensures b.k in g.M && forall n :: n in g.nodes && n != b ==> n.k != b.k
    {
    }

    /** Links a new node at the front of its bucket. */
    method PushFront(k: K, v: V)
      requires Valid() && k !in g.M
      modifies this, t
      ensures Valid() && g.M == old(g.M)[k := v]
      ensures t == old(t) && fresh(g.nodes - old(g.nodes)) && old(g.nodes) <= g.nodes
    {
      hide Coherent, Stored, NodesIn;
      var i := hc(k) % t.Length;
      var b := new Node(k, v, t[i]);
      PushView(hc, g, t[..], b, i);
      ghost var heads := t[..];
      t[i] := b;
      assert t[..] == heads[i := b];
      s := s + 1;
      g := Pushed(g, b, v, i);
    }

    /** Takes a found node out of its bucket. */
    method Remove(i: nat, lastb: Node?<K, V>, b: Node<K, V>, ghost j: nat)
      requires Valid() && i < t.Length && j < |g.chains[i]| && g.chains[i][j] == b
      requires lastb == (if j == 0 then null else g.chains[i][j - 1])
      modifies this, t, g.nodes
      ensures Valid() && g == old(Dropped(g, i, j)) && t == old(t)
    {
      hide Coherent, AllLists, Values, NodesIn;
      ghost var heads := t[..];
      DropView(hc, g, i, j);
      LastIsNode(hc, g, i, j);
      var newHead := UnlinkIn(hc, g, t[i], lastb, b, heads, i, j);
      if lastb == null {
        t[i] := newHead;
      }
      assert t[..] == heads[i := newHead];
      s := s - 1;
      g := Dropped(g, i, j);
    }

    /** Unlinks the node of k, if there is one; at is its position in the chain. */
    method Erase(k: K) returns (found: bool, ghost at: nat)
      requires Valid()
      modifies this, t, g.nodes
      ensures Valid() && found == (k in old(g.M)) && g.M == old(g.M) - {k} && t == old(t)
      ensures !found ==> g == old(g)
      ensures found ==> var i := hc(k) % t.Length;
                        at < |old(g.chains)[i]| && old(g.chains)[i][at].k == k && g == Dropped(old(g), i, at)
    {
      hide Coherent, Stored, NodesIn;
      Keys(k);
      var i := hc(k) % t.Length;
      ghost var ch := g.chains[i];
      StoredList(t[..], g, i);
      var lastb: Node?<K, V> := null;
      var b := t[i];
      ghost var j := 0;
      while b != null
        invariant 0 <= j <= |ch| && b == (if j < |ch| then ch[j] else null)
        invariant lastb == if j == 0 then null else ch[j - 1]
        invariant forall x :: 0 <= x < j ==> ch[x].k != k
        decreases |ch| - j
      {
        assert b in ch;
        if b.k == k {
          Remove(i, lastb, b, j);
          return true, j;
        }
        lastb := b;
        b := b.next;
        j := j + 1;
      }
      return false, 0;
    }

    /** Doubles the number of buckets and relinks every node in place; does nothing if the
        new array cannot be allocated. */
    method Grow(haveMemory: bool)
      requires Valid()
      modifies this, g.nodes`next
      ensures Valid() && g.M == old(g.M) && g.nodes == old(g.nodes)
      ensures if haveMemory then fresh(t) && t.Length == 2 * old(t.Length) else t == old(t)
    {
      hide Coherent, Stored, AllLists, Values, NodesIn, Rehashed;
      if haveMemory {
        var nt := new Node?<K, V>[t.Length * 2](_ => null);
        StoredList(t[..], g, 0);
        ghost var chains := MoveAll(hc, t[..], nt, g);
        RehashDone(hc, nt[..], g, chains);
        t := nt;
        g := g.(chains := chains);
      }
    }

    method Set(k: K, v: V, haveMemory: bool)
      requires Valid()
      modifies this, t, g.nodes
      ensures Valid() && g.M == old(g.M)[k := v]
      ensures (t == old(t) || fresh(t)) && fresh(g.nodes - old(g.nodes)) && old(g.nodes) <= g.nodes
    {
      hide Coherent, Stored, NodesIn;
      var b := Find(k);
      if b != null {
        Update(b, v);
        return;
      }
      if s >= t.Length {
        Grow(haveMemory);
      }
      PushFront(k, v);
    }

    /** operator[]: the value of k, which is created as a default value if absent. */
    method Index(k: K, dflt: V, haveMemory: bool) returns (v: V)
      requires Valid()
      modifies this, t, g.nodes
      ensures Valid() && k in g.M && v == g.M[k]
      ensures g.M == if k in old(g.M) then old(g.M) else old(g.M)[k := dflt]
      ensures (t == old(t) || fresh(t)) && fresh(g.nodes - old(g.nodes)) && old(g.nodes) <= g.nodes
    {
      hide Coherent, Stored, NodesIn;
      var b := Find(k);
      if b != null {
        return b.v;
      }
      if s >= t.Length {
        Grow(haveMemory);
      }
      PushFront(k, dflt);
      v := dflt;
    }

    method Clear()
      requires Valid()
      modifies this, t
      ensures Valid() && g.M == map[] && t == old(t) && g.nodes == {}
    {
      hide Coherent, Stored;
      if s == 0 {
        NoNodes(hc, g);
        return;
      }
      for i := 0 to t.Length
        invariant t == old(t) && forall x :: 0 <= x < i ==> t[x] == null
      {
        t[i] := null;
      }
      s := 0;
      g := EmptyView(t.Length);
      EmptyHolds(hc, t[..], t.Length);
    }
  }

  // ----- iteration

  /** All nodes from bucket i on, in the order in which the iterator visits them. */
  ghost function Flat<T>(chains: seq<seq<T>>, i: nat): seq<T>
    requires i <= |chains|
    decreases |chains| - i
  {
    if i == |chains| then [] else chains[i] + Flat(chains, i + 1)
  }

  ghost function RestOf<T>(chains: seq<seq<T>>, idx: nat, p: nat): seq<T>
    requires idx < |chains| ==> p <= |chains[idx]|
  {
    if idx < |chains| then chains[idx][p..] + Flat(chains, idx + 1) else []
  }

  lemma RestNextBucket<T>(chains: seq<seq<T>>, idx: nat, p: nat)
    requires idx < |chains| ==> p == |chains[idx]|
    ensures RestOf(chains, idx, p) == RestOf(chains, idx + 1, 0)
  {
    if idx + 1 < |chains| {
      assert chains[idx + 1][0..] == chains[idx + 1];
    }
  }

  lemma RestEnd<T>(chains: seq<seq<T>>, idx: nat)
    requires idx >= |chains|
    ensures RestOf(chains, idx, 0) == []
  {
  }

  lemma RestTake<T>(chains: seq<seq<T>>, idx: nat, p: nat)
    requires idx < |chains| && p < |chains[idx]|
    ensures var r := RestOf(chains, idx, p); r != [] && r[0] == chains[idx][p] && r[1..] == RestOf(chains, idx, p + 1)
  {
  }

  ghost function KeysOf<K, V>(ns: seq<Node<K, V>>): seq<K> {
    seq(|ns|, j requires 0 <= j < |ns| => ns[j].k)
  }

  class Iterator<K(==), V> {
    const ht: Hashtable<K, V>
    var idx: nat
    var b: Node?<K, V>
    ghost var p: nat

    /** b is node p of bucket idx, or null at the end of the bucket. */
    ghost predicate Valid()
      reads this, ht
    {
      if idx < |ht.g.chains| then
        p <= |ht.g.chains[idx]| && b == (if p < |ht.g.chains[idx]| then ht.g.chains[idx][p] else null)
      else b == null
    }

    /** The nodes still to be returned. */
    ghost function Rest(): seq<Node<K, V>>
      requires Valid()
      reads this, ht
    {
      RestOf(ht.g.chains, idx, p)
    }

    constructor (ht: Hashtable<K, V>)
      requires ht.Valid()
      ensures this.ht == ht && Valid() && Rest() == Flat(ht.g.chains, 0)
    {
      this.ht := ht;
      idx := 0;
      b := ht.t[0];
      p := 0;
      new;
      StoredList(ht.t[..], ht.g, 0);
    }

    /** Returns the remaining nodes one by one, then null. */
    method Next() returns (n: Node?<K, V>)
      requires ht.Valid() && Valid()
      modifies this
      ensures Valid()
      ensures old(Rest()) == [] ==> n == null && Rest() == []
      ensures old(Rest()) != [] ==> n == old(Rest())[0] && Rest() == old(Rest())[1..]
      ensures n != null ==> idx < |ht.g.chains| && 0 < p && ht.g.chains[idx][p - 1] == n
    {
      hide Coherent, Stored, RestOf;
      ghost var chains: seq<seq<Node<K, V>>>, rest := ht.g.chains, Rest();
      while b == null
        invariant Valid() && Rest() == rest
        decreases |chains| - idx
      {
        RestNextBucket(chains, idx, p);
        idx := idx + 1;
        p := 0;
        if idx >= ht.t.Length {
          RestEnd(chains, idx);
          return null;
        }
        StoredList(ht.t[..], ht.g, idx);
        b := ht.t[idx];
      }
      n := b;
      StoredList(ht.t[..], ht.g, idx);
      assert chains[idx][p].next == if p + 1 < |chains[idx]| then chains[idx][p + 1] else null;
      RestTake(chains, idx, p);
      b := b.next;
      p := p + 1;
    }

    /** Erasing the entry that Next returned last leaves the remaining ones alone. */
    method EraseLast(n: Node<K, V>)
      requires ht.Valid() && Valid() && idx < |ht.g.chains| && 0 < p && ht.g.chains[idx][p - 1] == n
      modifies this, ht, ht.t, ht.g.nodes
      ensures ht.Valid() && Valid() && Rest() == old(Rest())
      ensures ht.g.M == old(ht.g.M) - {n.k} && ht.t == old(ht.t) && ht.g.nodes <= old(ht.g.nodes)
    {
      hide Coherent, Stored, RestOf;
      ghost var g0 := ht.g;
      LastNode(ht.hc, g0, idx, p - 1);
      var found;
      ghost var at;
      found, at := ht.Erase(n.k);
      SamePosition(ht.hc, g0, idx, at, p - 1);
      RestDropped(g0.chains, idx, p);
      p := p - 1;
    }
  }

  lemma LastNode<K, V>(hc: K -> nat, g: View<K, V>, i: nat, j: nat)
    requires Coherent(hc, g) && i < |g.chains| && j < |g.chains[i]|
    ensures var n := g.chains[i][j]; n in g.nodes && n.k in g.M && hc(n.k) % |g.chains| == i
  {
    BucketNodes(hc, g, i);
    assert g.chains[i][j] in g.chains[i];
  }

  lemma SamePosition<K, V>(hc: K -> nat, g: View<K, V>, i: nat, x: nat, y: nat)
    requires Coherent(hc, g) && i < |g.chains| && x < |g.chains[i]| && y < |g.chains[i]|
    requires g.chains[i][x].k == g.chains[i][y].k
    ensures x == y
  {
    LastNode(hc, g, i, x);
    LastNode(hc, g, i, y);
    BucketNodes(hc, g, i);
  }

  lemma RestDropped<T>(chains: seq<seq<T>>, idx: nat, p: nat)
    requires idx < |chains| && 0 < p <= |chains[idx]|
    ensures RestOf(chains[idx := Without(chains[idx], p - 1)], idx, p - 1) == RestOf(chains, idx, p)
  {
    var ch := Without(chains[idx], p - 1);
    var chains' := chains[idx := ch];
    assert ch[p - 1..] == chains[idx][p..];
    FlatSame(chains, chains', idx + 1);
  }

  lemma {:induction false} FlatSame<T>(a: seq<seq<T>>, b: seq<seq<T>>, i: nat)
    requires |a| == |b| && i <= |a| && forall x :: i <= x < |a| ==> a[x] == b[x]
    ensures Flat(a, i) == Flat(b, i)
    decreases |a| - i
  {
    if i < |a| {
      FlatSame(a, b, i + 1);
    }
  }

  /** The visiting order contains every key of the map exactly once. */
  ghost predicate Enumerates<K>(ks: seq<K>, keys: set<K>) {
    (set k | k in ks) == keys && forall i, j :: 0 <= i < j < |ks| ==> ks[i] != ks[j]
  }

  lemma OrderEnumerates<K, V>(hc: K -> nat, g: View<K, V>)
    requires Coherent(hc, g)
    ensures Enumerates(KeysOf(Flat(g.chains, 0)), g.M.Keys)
  {
    var ns := Flat(g.chains, 0);
    var ks := KeysOf(ns);
    FlatNodes(hc, g, 0);
    forall k | k in g.M.Keys ensures k in ks {
      var n :| n in g.nodes && n.k == k;
      assert n in g.chains[hc(n.k) % |g.chains|];
      FlatHas(g.chains, 0, hc(n.k) % |g.chains|, n);
      var x :| 0 <= x < |ns| && ns[x] == n;
      assert ks[x] == k;
    }
    forall i, j | 0 <= i < j < |ks| ensures ks[i] != ks[j] {
      assert ns[i] in ns && ns[j] in ns;
    }
  }

  lemma {:induction false} FlatHas<T>(chains: seq<seq<T>>, i: nat, x: nat, n: T)
    requires i <= x < |chains| && n in chains[x]
    ensures n in Flat(chains, i)
    decreases x - i
  {
    if i < x {
      FlatHas(chains, i + 1, x, n);
    }
  }

  lemma {:induction false} FlatNodes<K, V>(hc: K -> nat, g: View<K, V>, i: nat)
    requires Coherent(hc, g) && i <= |g.chains|
    ensures forall n :: n in Flat(g.chains, i) ==> n in g.nodes && hc(n.k) % |g.chains| >= i
    ensures forall x, y :: 0 <= x < y < |Flat(g.chains, i)| ==> Flat(g.chains, i)[x] != Flat(g.chains, i)[y]
    decreases |g.chains| - i
  {
    if i < |g.chains| {
      FlatNodes(hc, g, i + 1);
      BucketNodes(hc, g, i);
      hide Coherent;
      var ch, rest := g.chains[i], Flat(g.chains, i + 1);
      forall x, y | 0 <= x < y < |ch + rest| ensures (ch + rest)[x] != (ch + rest)[y] {
        if x < |ch| <= y {
          assert ch[x] in ch && rest[y - |ch|] in rest;
        }
      }
    }
  }

  /** What is left of m once the visited keys that satisfy drop are gone. */
  ghost function Kept<K, V>(m: map<K, V>, visited: seq<K>, drop: (K, V) -> bool): map<K, V> {
    map k | k in m && !(k in visited && drop(k, m[k])) :: m[k]
  }

  /** The cleaning loop of Membership: visits every entry once and erases the stale ones
      as it goes. */
  method EraseWhere<K(==), V>(ht: Hashtable<K, V>, drop: (K, V) -> bool) returns (visited: seq<K>)
    requires ht.Valid()
    modifies ht, ht.t, ht.g.nodes
    ensures ht.Valid() && Enumerates(visited, old(ht.g.M).Keys)
    ensures ht.g.M == map k | k in old(ht.g.M) && !drop(k, old(ht.g.M)[k]) :: old(ht.g.M)[k]
  {
    hide Coherent, Stored, RestOf, Enumerates, KeysOf, NodesIn, Kept;
    ghost var m := ht.g.M;
    ghost var order := KeysOf(Flat(ht.g.chains, 0));
    OrderEnumerates(ht.hc, ht.g);
    var it := new Iterator(ht);
    visited := [];
    NoneVisited(m, drop);
    var more := true;
    while more
      invariant it.ht == ht && ht.Valid() && it.Valid() && ht.t == old(ht.t) && ht.g.nodes <= old(ht.g.nodes)
      invariant order == visited + KeysOf(it.Rest()) && ht.g.M == Kept(m, visited, drop)
      invariant !more ==> visited == order
      decreases |it.Rest()|, more
    {
      more, visited := VisitOne(it, drop, visited, m, order);
    }
    AllVisited(m, visited, drop);
  }

  /** One round of the cleaning loop. */
  method VisitOne<K(==), V>(it: Iterator<K, V>, drop: (K, V) -> bool, visited: seq<K>, ghost m: map<K, V>,
                            ghost order: seq<K>)
    returns (more: bool, visited': seq<K>)
    requires it.ht.Valid() && it.Valid() && Enumerates(order, m.Keys)
    requires order == visited + KeysOf(it.Rest()) && it.ht.g.M == Kept(m, visited, drop)
    modifies it, it.ht, it.ht.t, it.ht.g.nodes
    ensures it.ht.Valid() && it.Valid() && it.ht.t == old(it.ht.t) && it.ht.g.nodes <= old(it.ht.g.nodes)
    ensures order == visited' + KeysOf(it.Rest()) && it.ht.g.M == Kept(m, visited', drop)
    ensures if more then |it.Rest()| < old(|it.Rest()|) else visited' == order && it.Rest() == old(it.Rest())
  {
    hide Coherent, Stored, RestOf, Enumerates, KeysOf, NodesIn, Kept;
    ghost var rest := it.Rest();
    var n := it.Next();
    if n == null {
      KeysEmpty<K, V>();
      return false, visited;
    }
    KeysTake(rest, visited);
    LastNode(it.ht.hc, it.ht.g, it.idx, it.p - 1);
    NodeValue(it.ht.t[..], it.ht.g, n);
    FreshKey(order, m.Keys, visited, n.k);
    KeepOne(m, visited, drop, n.k, n.v);
    visited' := visited + [n.k];
    more := true;
    if drop(n.k, n.v) {
      it.EraseLast(n);
    }
  }

  lemma NoneVisited<K, V>(m: map<K, V>, drop: (K, V) -> bool)
    ensures Kept(m, [], drop) == m
  {
  }

  lemma KeepOne<K, V>(m: map<K, V>, visited: seq<K>, drop: (K, V) -> bool, k: K, v: V)
    requires k !in visited && k in Kept(m, visited, drop) && Kept(m, visited, drop)[k] == v
    ensures Kept(m, visited + [k], drop) == if drop(k, v) then Kept(m, visited, drop) - {k} else Kept(m, visited, drop)
  {
  }

  lemma KeysTake<K, V>(rest: seq<Node<K, V>>, visited: seq<K>)
    requires rest != []
    ensures visited + KeysOf(rest) == visited + [rest[0].k] + KeysOf(rest[1..])
  {
  }

  lemma KeysEmpty<K, V>()
    ensures KeysOf<K, V>([]) == []
  {
  }

  lemma NodeValue<K, V>(heads: seq<Node?<K, V>>, g: View<K, V>, n: Node<K, V>)
    requires Stored(heads, g) && n in g.nodes
    ensures n.k in g.M && g.M[n.k] == n.v
  {
  }

  lemma FreshKey<K>(order: seq<K>, keys: set<K>, visited: seq<K>, k: K)
    requires Enumerates(order, keys) && |visited| < |order| && order[..|visited|] == visited && order[|visited|] == k
    ensures k !in visited && k in keys
  {
    assert k in order;
    forall j | 0 <= j < |visited| ensures visited[j] != k {
      assert order[j] == order[..|visited|][j];
    }
  }

  lemma AllVisited<K, V>(m: map<K, V>, visited: seq<K>, drop: (K, V) -> bool)
    requires Enumerates(visited, m.Keys)
    ensures Kept(m, visited, drop) == map k | k in m && !drop(k, m[k]) :: m[k]
  {
    assert forall k :: k in m ==> k in visited;
  }

  // ----- assignment

  ghost function Taken<K, V>(m: map<K, V>, visited: seq<K>): map<K, V> {
    map k | k in m && k in visited :: m[k]
  }

  /** operator=: the map of the other table; assigning a table to itself empties it. */
  method Assign<K(==), V>(dst: Hashtable<K, V>, src: Hashtable<K, V>, haveMemory: bool)
    requires dst.Valid() && src.Valid()
    requires dst != src ==> dst.t != src.t && dst.g.nodes !! src.g.nodes
    modifies dst, dst.t, dst.g.nodes
    ensures dst.Valid() && dst.g.M == if dst == src then map[] else old(src.g.M)
    ensures dst != src ==> src.Valid() && src.g == old(src.g)
  {
    hide Coherent, Stored;
    dst.Clear();
    if src.s != 0 {
      CopyAll(dst, src, haveMemory);
    } else {
      assert |src.g.M| == 0;
    }
  }

  method CopyAll<K(==), V>(dst: Hashtable<K, V>, src: Hashtable<K, V>, haveMemory: bool)
    requires dst != src && dst.Valid() && src.Valid() && dst.t != src.t && dst.g.nodes == {} && dst.g.M == map[]
    modifies dst, dst.t
    ensures dst.Valid() && dst.g.M == src.g.M && src.Valid()
  {
    hide Coherent, Stored, RestOf, Enumerates, KeysOf, NodesIn, Taken;
    ghost var m := src.g.M;
    NoneTaken(m);
    ghost var order := KeysOf(Flat(src.g.chains, 0));
    OrderEnumerates(src.hc, src.g);
    var it := new Iterator(src);
    ghost var visited: seq<K> := [];
    var more := true;
    while more
      invariant src.Valid() && it.ht == src && it.Valid() && fresh(it)
      invariant dst.Valid() && (dst.t == old(dst.t) || fresh(dst.t)) && fresh(dst.g.nodes)
      invariant order == visited + KeysOf(it.Rest()) && dst.g.M == Taken(m, visited)
      invariant !more ==> visited == order
      decreases |it.Rest()|, more
    {
      more, visited := CopyOne(it, dst, haveMemory, visited, m, order);
    }
    AllTaken(m, visited);
  }

  /** One round of the copying loop. */
  method CopyOne<K(==), V>(it: Iterator<K, V>, dst: Hashtable<K, V>, haveMemory: bool, ghost visited: seq<K>,
                           ghost m: map<K, V>, ghost order: seq<K>)
    returns (more: bool, ghost visited': seq<K>)
    requires it.ht != dst && it.ht.Valid() && it.Valid() && dst.Valid() && it.ht.t != dst.t && it.ht.g.nodes !! dst.g.nodes
    requires it.ht.g.M == m && dst.g.M == Taken(m, visited) && order == visited + KeysOf(it.Rest())
    modifies it, dst, dst.t, dst.g.nodes
    ensures it.ht.Valid() && it.Valid() && dst.Valid()
    ensures (dst.t == old(dst.t) || fresh(dst.t)) && fresh(dst.g.nodes - old(dst.g.nodes))
    ensures dst.g.M == Taken(m, visited') && order == visited' + KeysOf(it.Rest())
    ensures if more then |it.Rest()| < old(|it.Rest()|) else visited' == order && it.Rest() == old(it.Rest())
  {
    hide Coherent, Stored, RestOf, KeysOf, NodesIn, Taken;
    ghost var rest := it.Rest();
    var n := it.Next();
    if n == null {
      KeysEmpty<K, V>();
      return false, visited;
    }
    KeysTake(rest, visited);
    LastNode(it.ht.hc, it.ht.g, it.idx, it.p - 1);
    NodeValue(it.ht.t[..], it.ht.g, n);
    TakeOne(m, visited, n.k);
    dst.Set(n.k, n.v, haveMemory);
    visited' := visited + [n.k];
    more := true;
  }

  lemma NoneTaken<K, V>(m: map<K, V>)
    ensures Taken(m, []) == map[]
  {
  }

  lemma TakeOne<K, V>(m: map<K, V>, visited: seq<K>, k: K)
    requires k in m
    ensures Taken(m, visited)[k := m[k]] == Taken(m, visited + [k])
  {
  }

  lemma AllTaken<K, V>(m: map<K, V>, visited: seq<K>)
    requires Enumerates(visited, m.Keys)
    ensures Taken(m, visited) == m
  {
    assert forall k :: k in m ==> k in visited;
  }
}
