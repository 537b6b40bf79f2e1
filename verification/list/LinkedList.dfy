// The doubly linked list.
module LinkedList {
  class Node<T> {
    const value: T
    var prev: Node?<T>
    var next: Node?<T>
    ghost var owner: List?<T>

    constructor (value: T)
      ensures this.value == value && prev == null && next == null && owner == null
    {
      this.value := value;
      prev, next, owner := null, null, null;
    }
  }

  // The i-th node, or null past either end.
  ghost function NodeAt<T>(s: seq<Node<T>>, i: int): Node?<T> {
    if 0 <= i < |s| then s[i] else null
  }

  ghost predicate Distinct<T>(s: seq<Node<T>>) {
    forall i, j :: 0 <= i < j < |s| ==> s[i] != s[j]
  }

  ghost predicate Inside<X>(s: seq<X>, all: set<X>) {
    forall i :: 0 <= i < |s| ==> s[i] in all
  }

  class List<T> {
    var head: Node?<T>
    var tail: Node?<T>
    var size: nat
    ghost var nodes: seq<Node<T>>

    ghost predicate Valid()
      reads this, nodes
    {
      && size == |nodes|
      && head == NodeAt(nodes, 0) && tail == NodeAt(nodes, |nodes| - 1)
      && Distinct(nodes)
      && (forall i :: 0 <= i < |nodes| ==>
        nodes[i].owner == this && nodes[i].prev == NodeAt(nodes, i - 1) && nodes[i].next == NodeAt(nodes, i + 1))
    }

    constructor ()
      ensures Valid() && nodes == []
    {
      head, tail, size, nodes := null, null, 0, [];
    }

    predicate Empty()
      requires Valid()
      reads this, nodes
      ensures Empty() <==> nodes == []
      ensures !Empty() ==> head != null && head == nodes[0] && tail != null && tail == nodes[|nodes| - 1]
    {
      size == 0
    }

    method Unlink(node: Node<T>)
      requires size > 0
      requires node != node.prev && node != node.next && (node.prev != null ==> node.prev != node.next)
      requires node == head ==> node.prev == null
      requires node == tail ==> node.next == null
      modifies `head, `tail, `size, node, node.prev, node.next
      ensures head == if node == old(head) then old(node.next) else old(head)
      ensures tail == if node == old(tail) then old(node.prev) else old(tail)
      ensures size == old(size) - 1 && node.prev == node.next == null && node.owner == old(node.owner)
      ensures var p := old(node.prev);
        p != null ==> p.next == old(node.next) && p.prev == old(p.prev) && p.owner == old(p.owner)
      ensures var q := old(node.next);
        q != null ==> q.prev == old(node.prev) && q.next == old(q.next) && q.owner == old(q.owner)
    {
      if node == tail {
        tail := tail.prev;
      }
      if node == head {
        head := head.next;
      }
      if node.prev != null {
        node.prev.next := node.next;
      }
      if node.next != null {
        node.next.prev := node.prev;
      }
      node.prev, node.next := null, null;
      size := size - 1;
    }

    // Takes the i-th node out of the chain, but not yet out of `nodes`.
    method Bypass(node: Node<T>, ghost i: nat)
      requires Valid() && i < |nodes| && nodes[i] == node
      modifies `head, `tail, `size, nodes
      ensures head == NodeAt(nodes, if i == 0 then 1 else 0) && tail == NodeAt(nodes, |nodes| - if i == |nodes| - 1 then 2 else 1)
      ensures size == |nodes| - 1 && node.prev == node.next == null
      ensures forall j :: 0 <= j < |nodes| && j != i ==> nodes[j].owner == this
      ensures forall j :: 0 <= j < |nodes| && j != i ==> nodes[j].prev == NodeAt(nodes, if j == i + 1 then i - 1 else j - 1)
      ensures forall j :: 0 <= j < |nodes| && j != i ==> nodes[j].next == NodeAt(nodes, if j == i - 1 then i + 1 else j + 1)
    {
      hide NodeAt;
      ghost var s := nodes;
      At(s, i - 1);
      At(s, i + 1);
      At(s, 0);
      At(s, 1);
      At(s, |s| - 1);
      At(s, |s| - 2);
      Unlink(node);
      forall j | 0 <= j < |s| && j != i
        ensures s[j].owner == this && s[j].prev == NodeAt(s, if j == i + 1 then i - 1 else j - 1)
          && s[j].next == NodeAt(s, if j == i - 1 then i + 1 else j + 1)
      {
      }
    }

    method Disconnect(node: Node<T>, ghost i: nat)
      requires Valid() && i < |nodes| && nodes[i] == node
      modifies this, nodes
      ensures Valid() && nodes == old(nodes[..i] + nodes[i + 1..])
      ensures node.prev == node.next == null && node.owner == null
    {
      hide NodeAt;
      ghost var s := nodes;
      Bypass(node, i);
      WithoutEnds(s, i);
      node.owner := null;
      nodes := s[..i] + s[i + 1..];
      forall k | 0 <= k < |nodes|
        ensures nodes[k].owner == this && nodes[k].prev == NodeAt(nodes, k - 1) && nodes[k].next == NodeAt(nodes, k + 1)
      {
        Without(s, i, k);
      }
    }

    // The pointer surgery of `connect` next to `position` in a non-empty list.
    method Link(position: Node<T>, node: Node<T>, before: bool)
      requires size > 0 && head != null && node != position && node.prev == node.next == null
      requires node != position.prev && node != position.next && position != position.prev && position != position.next
      modifies `head, `tail, `size, node, position, if before then position.prev else position.next
      ensures size == old(size) + 1 && node.owner == old(node.owner) && position.owner == old(position.owner)
      ensures before ==>
        && node.next == position && node.prev == old(position.prev) && position.prev == node && position.next == old(position.next)
        && head == (if position == old(head) then node else old(head)) && tail == old(tail)
        && (node.prev != null ==> node.prev.next == node && node.prev.prev == old(position.prev.prev) && node.prev.owner == old(position.prev.owner))
      ensures !before ==>
        && node.prev == position && node.next == old(position.next) && position.next == node && position.prev == old(position.prev)
        && tail == (if position == old(tail) then node else old(tail)) && head == old(head)
        && (node.next != null ==> node.next.prev == node && node.next.next == old(position.next.next) && node.next.owner == old(position.next.owner))
    {
      if before {
        node.next := position;
        node.prev := position.prev;
        if position.prev != null {
          position.prev.next := node;
        }
        position.prev := node;
        if position == head {
          head := node;
        }
      } else {
        node.prev := position;
        node.next := position.next;
        if position.next != null {
          position.next.prev := node;
        }
        position.next := node;
        if position == tail {
          tail := node;
        }
      }
      size := size + 1;
    }

    // Puts a loose node before or after the i-th one, or into the empty list.
    method Connect(position: Node?<T>, node: Node<T>, before: bool, ghost i: nat)
      requires Valid() && node.owner == null && node.prev == node.next == null
      requires if nodes == [] then i == 0 else position != null && i < |nodes| && nodes[i] == position
      modifies this, nodes, node
      ensures Valid()
      ensures var at := if old(nodes) == [] || before then i else i + 1;
        nodes == old(nodes[..at]) + [node] + old(nodes[at..])
    {
      hide NodeAt;
      ghost var s := nodes;
      if Empty() {
        head, tail := node, node;
        size := size + 1;
        node.owner := this;
        nodes := [node];
        Single(node);
      } else {
        At(s, i - 1);
        At(s, i);
        At(s, i + 1);
        At(s, 0);
        At(s, |s| - 1);
        Link(position, node, before);
        node.owner := this;
        ghost var at := if before then i else i + 1;
        nodes := s[..at] + [node] + s[at..];
        WithEnds(s, at, node);
        forall k | 0 <= k < |nodes|
          ensures nodes[k].owner == this && nodes[k].prev == NodeAt(nodes, k - 1) && nodes[k].next == NodeAt(nodes, k + 1)
        {
          With(s, at, node, k);
        }
      }
    }

    // Moves a node of another list next to the i-th one of this list.
    method Transfer(other: List<T>, position: Node?<T>, node: Node<T>, before: bool, ghost i: nat, ghost k: nat)
      requires Valid() && other.Valid() && other != this
      requires if nodes == [] then i == 0 else position != null && i < |nodes| && nodes[i] == position
      requires k < |other.nodes| && other.nodes[k] == node
      modifies this, nodes, other, other.nodes
      ensures Valid() && other.Valid()
      ensures var at := if old(nodes) == [] || before then i else i + 1;
        nodes == old(nodes[..at]) + [node] + old(nodes[at..])
      ensures other.nodes == old(other.nodes[..k] + other.nodes[k + 1..])
    {
      hide NodeAt, Distinct;
      NothingShared(this, other);
      other.Disconnect(node, k);
      assert Valid();
      NotHere(this, node);
      Connect(position, node, before, i);
    }

    // Exchanges the chains of two lists.
    method Swap(other: List<T>)
      requires Valid() && other.Valid() && other != this
      modifies this, other, nodes, other.nodes
      ensures Valid() && other.Valid() && nodes == old(other.nodes) && other.nodes == old(nodes)
    {
      hide NodeAt, Distinct;
      NothingShared(this, other);
      head, other.head := other.head, head;
      tail, other.tail := other.tail, tail;
      size, other.size := other.size, size;
      ghost var a, b := nodes, other.nodes;
      nodes, other.nodes := b, a;
      forall n | n in nodes {
        n.owner := this;
      }
      forall n | n in other.nodes {
        n.owner := other;
      }
    }
  }

  // Lists own their nodes.
  lemma NothingShared<T>(a: List<T>, b: List<T>)
    requires a.Valid() && b.Valid() && a != b
    ensures forall n :: n in a.nodes ==> n !in b.nodes
  {
  }

  lemma NotHere<T>(a: List<T>, n: Node<T>)
    requires a.Valid() && n.owner != a
    ensures n !in a.nodes
  {
  }

  lemma Single<T>(node: Node<T>)
    ensures NodeAt([node], 0) == node && NodeAt([node], -1) == NodeAt([node], 1) == null
  {
  }

  lemma WithEnds<T>(s: seq<Node<T>>, i: nat, x: Node<T>)
    requires i <= |s| && s != []
    ensures var t := s[..i] + [x] + s[i..];
      && NodeAt(t, 0) == (if i == 0 then x else s[0])
      && NodeAt(t, |t| - 1) == (if i == |s| then x else s[|s| - 1])
      && (Distinct(s) && x !in s ==> Distinct(t))
  {
  }

  // The neighbours of a node after `x` is put in at the i-th place.
  lemma With<T>(s: seq<Node<T>>, i: nat, x: Node<T>, k: nat)
    requires i <= |s| && k <= |s|
    ensures var t, j := s[..i] + [x] + s[i..], if k < i then k else k - 1;
      && t[k] == (if k == i then x else s[j])
      && NodeAt(t, k - 1) == (if k == i then NodeAt(s, i - 1) else if j == i then x else NodeAt(s, j - 1))
      && NodeAt(t, k + 1) == (if k == i then NodeAt(s, i) else if j == i - 1 then x else NodeAt(s, j + 1))
  {
  }

  lemma At<T>(s: seq<Node<T>>, i: int)
    ensures NodeAt(s, i) == if 0 <= i < |s| then s[i] else null
  {
  }

  lemma WithoutEnds<T>(s: seq<Node<T>>, i: nat)
    requires i < |s|
    ensures var t := s[..i] + s[i + 1..];
      && NodeAt(t, 0) == NodeAt(s, if i == 0 then 1 else 0)
      && NodeAt(t, |t| - 1) == NodeAt(s, |s| - if i == |s| - 1 then 2 else 1)
      && (Distinct(s) ==> Distinct(t))
  {
  }

  // The neighbours of a node after the i-th is taken out.
  lemma Without<T>(s: seq<Node<T>>, i: nat, k: nat)
    requires i < |s| && k < |s| - 1
    ensures var t, j := s[..i] + s[i + 1..], if k < i then k else k + 1;
      && t[k] == s[j]
      && NodeAt(t, k - 1) == NodeAt(s, if j == i + 1 then i - 1 else j - 1)
      && NodeAt(t, k + 1) == NodeAt(s, if j == i - 1 then i + 1 else j + 1)
  {
  }
}
