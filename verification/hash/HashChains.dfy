// The chains of the hash set: which node sits where.
module HashChains {
  class Node<T> {
    const key: T
    var next: Node?<T>

    constructor (key: T)
      ensures this.key == key && next == null
    {
      this.key := key;
      next := null;
    }
  }

  // ----- chains of nodes -----

  ghost function NodeAt<T>(s: seq<Node<T>>, i: int): Node?<T> {
    if 0 <= i < |s| then s[i] else null
  }

  lemma NodeAtIs<T>(s: seq<Node<T>>, i: int)
    ensures NodeAt(s, i) == if 0 <= i < |s| then s[i] else null
  {
  }

  // The nodes are linked in this order.
  ghost predicate Chain<T>(head: Node?<T>, s: seq<Node<T>>)
    reads s
  {
    head == NodeAt(s, 0) && forall j :: 0 <= j < |s| ==> s[j].next == NodeAt(s, j + 1)
  }

  // An equality test that is an equivalence and agrees with the hash.
  ghost predicate Consistent<T(!new)>(hash: T -> nat, equal: (T, T) -> bool) {
    && (forall x :: equal(x, x))
    && (forall x, y :: equal(x, y) ==> equal(y, x) && hash(x) == hash(y))
    && (forall x, y, z :: equal(x, y) && equal(y, z) ==> equal(x, z))
  }

  // Every key is in the chain of its hash.
  ghost predicate Hashed<T>(hash: T -> nat, chains: seq<seq<Node<T>>>) {
    forall i, j :: 0 <= i < |chains| && 0 <= j < |chains[i]| ==> hash(chains[i][j].key) % |chains| == i
  }

  // No two keys of a chain are equal.
  ghost predicate Different<T>(equal: (T, T) -> bool, s: seq<Node<T>>) {
    forall j, l :: 0 <= j < l < |s| ==> !equal(s[j].key, s[l].key)
  }

  ghost predicate AllDifferent<T>(equal: (T, T) -> bool, chains: seq<seq<Node<T>>>) {
    forall i :: 0 <= i < |chains| ==> Different(equal, chains[i])
  }

  ghost function Nodes<T>(chains: seq<seq<Node<T>>>): set<Node<T>> {
    set i, n | 0 <= i < |chains| && n in chains[i] :: n
  }

  ghost function Keys<T>(ns: set<Node<T>>): set<T> {
    set n | n in ns :: n.key
  }

  // A table is sound if every key sits once, in the chain of its hash.
  ghost predicate Sound<T(!new)>(hash: T -> nat, equal: (T, T) -> bool, chains: seq<seq<Node<T>>>) {
    Consistent(hash, equal) && Hashed(hash, chains) && AllDifferent(equal, chains)
  }

  // Nodes with equal keys are the same node.
  lemma OnlyOnce<T(!new)>(hash: T -> nat, equal: (T, T) -> bool, chains: seq<seq<Node<T>>>, i: nat, j: nat, k: nat, l: nat)
    requires Sound(hash, equal, chains) && i < |chains| && j < |chains[i]| && k < |chains| && l < |chains[k]|
    requires equal(chains[i][j].key, chains[k][l].key)
    ensures i == k && j == l
  {
  }

  // A node sits in one place only.
  lemma Alone<T(!new)>(hash: T -> nat, equal: (T, T) -> bool, chains: seq<seq<Node<T>>>, b: nat, p: nat)
    requires Sound(hash, equal, chains) && b < |chains| && p < |chains[b]|
    ensures forall i, j :: 0 <= i < |chains| && 0 <= j < |chains[i]| && chains[i][j] == chains[b][p] ==> i == b && j == p
  {
  }

  lemma InNodes<T>(chains: seq<seq<Node<T>>>, i: nat, j: nat)
    requires i < |chains| && j < |chains[i]|
    ensures chains[i][j] in Nodes(chains)
  {
    assert chains[i][j] in chains[i];
  }

  lemma WhereIs<T>(chains: seq<seq<Node<T>>>, m: Node<T>) returns (i: nat, j: nat)
    requires m in Nodes(chains)
    ensures i < |chains| && j < |chains[i]| && chains[i][j] == m
  {
    i :| 0 <= i < |chains| && m in chains[i];
    j :| 0 <= j < |chains[i]| && chains[i][j] == m;
  }

  lemma HashedAt<T>(hash: T -> nat, chains: seq<seq<Node<T>>>, i: nat, j: nat)
    requires Hashed(hash, chains) && i < |chains| && j < |chains[i]|
    ensures hash(chains[i][j].key) % |chains| == i
  {
  }

  // Changing one chain.
  lemma HashedUpdate<T>(hash: T -> nat, chains: seq<seq<Node<T>>>, b: nat, s: seq<Node<T>>)
    requires Hashed(hash, chains) && b < |chains|
    requires forall j :: 0 <= j < |s| ==> hash(s[j].key) % |chains| == b
    ensures Hashed(hash, chains[b := s])
  {
  }

  lemma NodesUpdate<T>(chains: seq<seq<Node<T>>>, b: nat, s: seq<Node<T>>, n: Node<T>)
    requires b < |chains|
    ensures n in Nodes(chains[b := s]) <==> n in s || exists i :: 0 <= i < |chains| && i != b && n in chains[i]
  {
    var t := chains[b := s];
    if n in s {
      assert n in t[b];
    }
    if i :| 0 <= i < |chains| && i != b && n in chains[i] {
      assert n in t[i];
    }
  }

  lemma PushSound<T(!new)>(hash: T -> nat, equal: (T, T) -> bool, chains: seq<seq<Node<T>>>, b: nat, n: Node<T>)
    requires Sound(hash, equal, chains) && |chains| > 0 && b == hash(n.key) % |chains|
    requires forall m :: m in Nodes(chains) ==> !equal(n.key, m.key)
    ensures Sound(hash, equal, chains[b := [n] + chains[b]]) && n !in Nodes(chains)
    ensures Nodes(chains[b := [n] + chains[b]]) == Nodes(chains) + {n}
  {
    var s := [n] + chains[b];
    assert !equal(n.key, n.key) ==> false;
    HashedUpdate(hash, chains, b, s);
    forall l | 0 <= l < |chains[b]| ensures !equal(n.key, chains[b][l].key) {
      InNodes(chains, b, l);
    }
    assert Different(equal, s);
    hide Nodes;
    forall m ensures m in Nodes(chains[b := s]) <==> m in Nodes(chains) || m == n {
      NodesUpdate(chains, b, s, m);
      NodesUpdate(chains, b, chains[b], m);
      assert chains[b := chains[b]] == chains;
    }
  }

  lemma RemoveSound<T(!new)>(hash: T -> nat, equal: (T, T) -> bool, chains: seq<seq<Node<T>>>, b: nat, p: nat)
    requires Sound(hash, equal, chains) && b < |chains| && p < |chains[b]|
    ensures var t := chains[b := chains[b][..p] + chains[b][p + 1..]];
      Sound(hash, equal, t) && Nodes(t) == Nodes(chains) - {chains[b][p]}
  {
    var n, s := chains[b][p], chains[b][..p] + chains[b][p + 1..];
    HashedUpdate(hash, chains, b, s);
    assert Different(equal, s);
    forall i, j | 0 <= i < |chains| && 0 <= j < |chains[i]| && chains[i][j] == n ensures i == b && j == p {
      OnlyOnce(hash, equal, chains, i, j, b, p);
    }
    hide Nodes;
    forall m ensures m in Nodes(chains[b := s]) <==> m in Nodes(chains) && m != n {
      NodesUpdate(chains, b, s, m);
      NodesUpdate(chains, b, chains[b], m);
      assert chains[b := chains[b]] == chains;
    }
  }
}
