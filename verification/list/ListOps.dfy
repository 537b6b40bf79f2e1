// Walks over a linked list that change it on the way.
module ListOps {
  import opened LinkedList
  import opened Filter
  import opened Sequences

  // A test of values as a test of nodes.
  function OnValue<T>(match_: T -> bool): Node<T> -> bool {
    (n: Node<T>) => match_(n.value)
  }

  // Erases the matching nodes; the iterator has saved the next node before the body runs.
  method RemoveIf<T>(list: List<T>, match_: T -> bool) returns (erases: nat)
    requires list.Valid()
    modifies list, list.nodes
    ensures list.Valid() && list.nodes == Kept(old(list.nodes), OnValue(match_))
    ensures erases == |old(list.nodes)| - |list.nodes|
  {
    hide *;
    erases := 0;
    ghost var s, k: nat, keep := list.nodes, 0, OnValue(match_);
    ghost var all := set n | n in s;
    StartFilter(s, keep);
    Starts(list);
    var node := list.head;
    while node != null
      invariant list.Valid() && Inside(list.nodes, all)
      invariant k <= |s| && node == NodeAt(s, k) && Filtering(s, keep, list.nodes, k)
      invariant erases == |s| - |list.nodes|
      decreases |s| - k
    {
      At(s, k);
      var next, erased := FilterNode(list, node, match_, keep, s, k, all);
      erases := erases + erased;
      node := next;
      k := k + 1;
    }
    At(s, k);
    EndFilter(s, keep, list.nodes);
  }

  lemma Starts<T>(list: List<T>)
    requires list.Valid()
    ensures list.head == NodeAt(list.nodes, 0) && Inside(list.nodes, set n | n in list.nodes)
  {
  }

  method FilterNode<T>(list: List<T>, node: Node<T>, match_: T -> bool, ghost keep: Node<T> -> bool,
      ghost s: seq<Node<T>>, ghost k: nat, ghost all: set<Node<T>>)
    returns (next: Node?<T>, erased: nat)
    requires keep == OnValue(match_) && list.Valid() && Inside(list.nodes, all) && k < |s| && s[k] == node && Filtering(s, keep, list.nodes, k)
    modifies list, all
    ensures list.Valid() && Inside(list.nodes, all) && Filtering(s, keep, list.nodes, k + 1)
    ensures next == NodeAt(s, k + 1) && |list.nodes| == old(|list.nodes|) - erased
  {
    hide NodeAt, Distinct, Kept, Filtering, KeptPlace;
    ghost var i := KeptPlace(s, keep, k);
    FilterOne(s, keep, list.nodes, k);
    At(list.nodes, i + 1);
    At(s, k + 1);
    next, erased := node.next, 0;
    if match_(node.value) {
      list.Disconnect(node, i);
      erased := 1;
    }
  }

  // Moves all of `other` in front of `position`, or into the empty list.
  method Splice<T>(self: List<T>, position: Node?<T>, other: List<T>, ghost i: nat)
    requires self.Valid() && other.Valid() && self != other
    requires if self.nodes == [] then position == null && i == 0 else i < |self.nodes| && position == self.nodes[i]
    modifies self, other, self.nodes, other.nodes
    ensures self.Valid() && other.Valid() && other.nodes == []
    ensures self.nodes == old(self.nodes[..i] + other.nodes + self.nodes[i..])
  {
    hide NodeAt, Distinct;
    if self.size == 0 && position == null {
      Surrounded(other.nodes);
      self.Swap(other);
    } else {
      ghost var a, b, k: nat := self.nodes, other.nodes, 0;
      ghost var all := (set n | n in a) + (set n | n in b);
      var node := other.head;
      Splicing(a, b, i, 0);
      while node != null
        invariant k <= |b| && node == NodeAt(b, k) && Spliced(self, other, a, b, i, k, all)
        decreases |b| - k
      {
        At(b, k);
        node := SpliceNode(self, other, position, node, a, b, i, k, all);
        k := k + 1;
      }
      At(b, k);
      assert b[..|b|] == b;
    }
  }

  ghost predicate Spliced<T>(self: List<T>, other: List<T>, a: seq<Node<T>>, b: seq<Node<T>>, i: nat, k: nat, all: set<Node<T>>)
    reads self, other, self.nodes, other.nodes
    requires i <= |a| && k <= |b|
  {
    && self != other && self.Valid() && other.Valid() && Inside(self.nodes, all) && Inside(other.nodes, all)
    && self.nodes == a[..i] + b[..k] + a[i..] && other.nodes == b[k..]
  }

  method SpliceNode<T>(self: List<T>, other: List<T>, position: Node?<T>, node: Node<T>,
      ghost a: seq<Node<T>>, ghost b: seq<Node<T>>, ghost i: nat, ghost k: nat, ghost all: set<Node<T>>) returns (next: Node?<T>)
    requires i < |a| && k < |b| && Spliced(self, other, a, b, i, k, all) && position == a[i] && node == b[k]
    modifies self, other, all
    ensures Spliced(self, other, a, b, i, k + 1, all) && next == NodeAt(b, k + 1)
  {
    hide NodeAt, Distinct;
    At(other.nodes, 1);
    At(b, k + 1);
    Splicing(a, b, i, k);
    next := node.next;
    self.Transfer(other, position, node, true, i + k, 0);
  }

  lemma Surrounded<X>(s: seq<X>)
    ensures [] + s + [] == s
  {
  }

  lemma Splicing<X>(a: seq<X>, b: seq<X>, i: nat, k: nat)
    requires i < |a| && k <= |b|
    ensures k == 0 ==> a[..i] + b[..k] + a[i..] == a && b[k..] == b
    ensures (a[..i] + b[..k] + a[i..])[i + k] == a[i]
    ensures k < |b| ==> b[k..][..0] + b[k..][1..] == b[k + 1..]
    ensures var s := a[..i] + b[..k] + a[i..];
      k < |b| ==> s[..i + k] + [b[k]] + s[i + k..] == a[..i] + b[..k + 1] + a[i..]
  {
  }

  // The links of the first k nodes are turned around.
  ghost predicate Turned<T>(list: List<T>, s: seq<Node<T>>, k: nat)
    reads list, s
  {
    && list.nodes == s && list.size == |s| && list.head == NodeAt(s, 0) && list.tail == NodeAt(s, |s| - 1)
    && Distinct(s)
    && (forall i :: 0 <= i < |s| ==> s[i].owner == list)
    && (forall i :: 0 <= i < |s| ==> s[i].prev == NodeAt(s, if i < k then i + 1 else i - 1))
    && (forall i :: 0 <= i < |s| ==> s[i].next == NodeAt(s, if i < k then i - 1 else i + 1))
  }

  // Turns the links of each node around; the iterator has saved the next node.
  method Reverse<T>(list: List<T>)
    requires list.Valid()
    modifies list, list.nodes
    ensures list.Valid() && list.nodes == Reversed(old(list.nodes))
  {
    hide NodeAt, Distinct, Turned;
    ghost var s, k: nat := list.nodes, 0;
    StartTurning(list);
    var node := list.head;
    while node != null
      invariant k <= |s| && node == NodeAt(s, k) && Turned(list, s, k)
      decreases |s| - k
    {
      At(s, k);
      node := TurnNode(list, node, s, k);
      k := k + 1;
    }
    At(s, k);
    SwapEnds(list, s);
  }

  lemma StartTurning<T>(list: List<T>)
    requires list.Valid()
    ensures Turned(list, list.nodes, 0) && list.head == NodeAt(list.nodes, 0)
  {
  }

  method TurnNode<T>(list: List<T>, node: Node<T>, ghost s: seq<Node<T>>, ghost k: nat) returns (next: Node?<T>)
    requires k < |s| && s[k] == node && Turned(list, s, k)
    modifies node
    ensures Turned(list, s, k + 1) && next == NodeAt(s, k + 1)
  {
    hide NodeAt;
    next := node.next;
    var prev := node.prev;
    node.prev, node.next := next, prev;
  }

  method SwapEnds<T>(list: List<T>, ghost s: seq<Node<T>>)
    requires Turned(list, s, |s|)
    modifies list
    ensures list.Valid() && list.nodes == Reversed(s)
  {
    hide NodeAt, Distinct, Reversed;
    ghost var r := Reversed(s);
    ReversedAt(s, 0);
    ReversedAt(s, |s| - 1);
    ReversedDistinct(s);
    list.tail, list.head := list.head, list.tail;
    list.nodes := r;
    forall i | 0 <= i < |r|
      ensures r[i].owner == list && r[i].prev == NodeAt(r, i - 1) && r[i].next == NodeAt(r, i + 1)
    {
      ReversedAt(s, i);
      ReversedAt(s, i - 1);
      ReversedAt(s, i + 1);
    }
  }

  lemma ReversedAt<T>(s: seq<Node<T>>, i: int)
    ensures |Reversed(s)| == |s| && (0 <= i < |s| ==> Reversed(s)[i] == s[|s| - 1 - i])
    ensures NodeAt(Reversed(s), i) == NodeAt(s, |s| - 1 - i)
  {
  }

  lemma ReversedDistinct<T>(s: seq<Node<T>>)
    requires Distinct(s)
    ensures Distinct(Reversed(s))
  {
  }
}
