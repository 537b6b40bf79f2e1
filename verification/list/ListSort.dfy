// Merging and sorting linked lists in place.
module ListSort {
  import opened LinkedList
  import opened MergeOrder
  import opened Powers
  import opened WeakOrder
  import opened BinaryCounter

  function ValueOf<T>(n: Node<T>): T {
    n.value
  }

  ghost function Union<T>(a: List<T>, b: List<T>): set<Node<T>>
    reads a, b
  {
    (set n | n in a.nodes) + (set n | n in b.nodes)
  }

  // Two lists of their own, all of whose nodes are in `all`.
  ghost predicate Pair<T>(a: List<T>, b: List<T>, all: set<Node<T>>)
    reads a, a.nodes, b, b.nodes
  {
    a != b && a.Valid() && b.Valid() && Inside(a.nodes, all) && Inside(b.nodes, all)
  }

  // What is still to come at the k-th node of `a` is to yield `goal`.
  ghost predicate Merging<T>(after: (T, T) -> bool, a: seq<Node<T>>, b: seq<Node<T>>, k: nat, goal: seq<Node<T>>) {
    k <= |a| && a[..k] + Merged(after, ValueOf, a[k..], b) == goal
  }

  lemma MergeNewer<T>(after: (T, T) -> bool, a: seq<Node<T>>, b: seq<Node<T>>, k: nat, goal: seq<Node<T>>)
    requires Merging(after, a, b, k, goal) && k < |a| && b != [] && after(a[k].value, b[0].value)
    ensures Merging(after, a[..k] + [b[0]] + a[k..], b[1..], k + 1, goal)
  {
  }

  lemma MergeOlder<T>(after: (T, T) -> bool, a: seq<Node<T>>, b: seq<Node<T>>, k: nat, goal: seq<Node<T>>)
    requires Merging(after, a, b, k, goal) && k < |a| && (b == [] || !after(a[k].value, b[0].value))
    ensures Merging(after, a, b, k + 1, goal)
  {
  }

  lemma FirstOut<X>(s: seq<X>)
    requires s != []
    ensures s[..0] + s[1..] == s[1..]
  {
  }

  // Moves the heads of `other` that belong before the k-th node of `self` there.
  method TakeNewer<T>(self: List<T>, other: List<T>, node: Node<T>, after: (T, T) -> bool,
      ghost k: nat, ghost all: set<Node<T>>, ghost goal: seq<Node<T>>) returns (ghost at: nat)
    requires Pair(self, other, all) && k < |self.nodes| && self.nodes[k] == node
    requires Merging(after, self.nodes, other.nodes, k, goal)
    modifies self, other, all
    ensures Pair(self, other, all) && at < |self.nodes| && self.nodes[at] == node
    ensures Merging(after, self.nodes, other.nodes, at + 1, goal)
    ensures |self.nodes| - at == old(|self.nodes|) - k && |other.nodes| <= old(|other.nodes|)
  {
    hide NodeAt, Merging, Distinct, Inside;
    at := k;
    while !other.Empty() && after(node.value, other.head.value)
      invariant Pair(self, other, all) && at < |self.nodes| && self.nodes[at] == node
      invariant Merging(after, self.nodes, other.nodes, at, goal)
      invariant |self.nodes| - at == old(|self.nodes|) - k && |other.nodes| <= old(|other.nodes|)
      decreases |other.nodes|
    {
      MergeNewer(after, self.nodes, other.nodes, at, goal);
      TakeOne(self, other, node, at, all);
      at := at + 1;
    }
    MergeOlder(after, self.nodes, other.nodes, at, goal);
  }

  // Moves the head of `other` in front of the k-th node of `self`.
  method TakeOne<T>(self: List<T>, other: List<T>, node: Node<T>, ghost k: nat, ghost all: set<Node<T>>)
    requires Pair(self, other, all) && k < |self.nodes| && self.nodes[k] == node && other.nodes != []
    modifies self, other, all
    ensures Pair(self, other, all)
    ensures self.nodes == old(self.nodes[..k] + [other.nodes[0]] + self.nodes[k..]) && other.nodes == old(other.nodes[1..])
  {
    hide NodeAt, Distinct, Inside;
    ghost var a, b := self.nodes, other.nodes;
    FirstOut(b);
    MoveInside(a, b, k, all);
    At(b, 0);
    self.Transfer(other, node, other.head, true, k, 0);
  }

  lemma MoveInside<X>(a: seq<X>, b: seq<X>, k: nat, all: set<X>)
    requires Inside(a, all) && Inside(b, all) && b != [] && k <= |a|
    ensures Inside(a[..k] + [b[0]] + a[k..], all) && Inside(b[1..], all)
    ensures forall x :: x in a || x in b ==> x in all
  {
  }

  // Merges the newer list `other` into the older list `self`.
  method Merge<T>(self: List<T>, other: List<T>, after: (T, T) -> bool)
    requires self != other && self.Valid() && other.Valid()
    modifies self, other, self.nodes, other.nodes
    ensures Pair(self, other, old(Union(self, other)))
    ensures self.nodes == Merged(after, ValueOf, old(self.nodes), old(other.nodes)) && other.nodes == []
  {
    hide NodeAt, Merging;
    if self.Empty() {
      self.Swap(other);
    } else {
      ghost var all, k: nat, goal := Union(self, other), 0, Merged(after, ValueOf, self.nodes, other.nodes);
      StartMerging(after, self.nodes, other.nodes);
      var node := self.head;
      while node != null
        invariant Pair(self, other, all) && self.nodes != [] && k <= |self.nodes| && node == NodeAt(self.nodes, k)
        invariant Merging(after, self.nodes, other.nodes, k, goal)
        decreases |self.nodes| - k
      {
        At(self.nodes, k);
        k := TakeNewer(self, other, node, after, k, all, goal);
        node := node.next;
        k := k + 1;
      }
      At(self.nodes, k);
      EndMerging(after, self.nodes, other.nodes, goal);
      Append(self, other, all, goal);
    }
  }

  lemma StartMerging<T>(after: (T, T) -> bool, a: seq<Node<T>>, b: seq<Node<T>>)
    ensures Merging(after, a, b, 0, Merged(after, ValueOf, a, b))
  {
  }

  lemma EndMerging<T>(after: (T, T) -> bool, a: seq<Node<T>>, b: seq<Node<T>>, goal: seq<Node<T>>)
    requires Merging(after, a, b, |a|, goal)
    ensures a + b == goal
  {
  }

  // Moves what is left of `other` to the end of `self`.
  method Append<T>(self: List<T>, other: List<T>, ghost all: set<Node<T>>, ghost goal: seq<Node<T>>)
    requires Pair(self, other, all) && self.nodes != [] && self.nodes + other.nodes == goal
    modifies self, other, all
    ensures Pair(self, other, all) && self.nodes == goal && other.nodes == []
  {
    hide NodeAt, Distinct, Inside;
    while !other.Empty()
      invariant Pair(self, other, all) && self.nodes != [] && self.nodes + other.nodes == goal
      decreases |other.nodes|
    {
      AppendOne(self, other, all);
    }
  }

  method AppendOne<T>(self: List<T>, other: List<T>, ghost all: set<Node<T>>)
    requires Pair(self, other, all) && self.nodes != [] && other.nodes != []
    modifies self, other, all
    ensures Pair(self, other, all) && self.nodes != []
    ensures self.nodes + other.nodes == old(self.nodes + other.nodes) && |other.nodes| == old(|other.nodes|) - 1
  {
    hide NodeAt, Distinct, Inside;
    ghost var a, b := self.nodes, other.nodes;
    FirstOut(b);
    LastIn(a, b);
    MoveInside(a, b, |a|, all);
    At(a, |a| - 1);
    At(b, 0);
    self.Transfer(other, self.tail, other.head, false, |a| - 1, 0);
  }

  lemma LastIn<X>(a: seq<X>, b: seq<X>)
    requires a != [] && b != []
    ensures var n := |a| - 1 + 1;
      a[..n] + [b[0]] + a[n..] == a + [b[0]] && a + [b[0]] + b[1..] == a + b
  {
  }

  // ----- a world of lists -----

  // Different lists that own all they hold, out of `all`.
  ghost predicate World<T>(ls: seq<List<T>>, all: set<Node<T>>)
    reads ls, all
  {
    && (forall i, j :: 0 <= i < j < |ls| ==> ls[i] != ls[j])
    && (forall i :: 0 <= i < |ls| ==> Inside(ls[i].nodes, all) && ls[i].Valid())
  }

  ghost function Contents<T>(ls: seq<List<T>>): (c: seq<seq<Node<T>>>)
    reads ls
    ensures |c| == |ls| && forall i :: 0 <= i < |ls| ==> c[i] == ls[i].nodes
  {
    seq(|ls|, i requires 0 <= i < |ls| reads ls => ls[i].nodes)
  }

  // The i-th and the j-th list share nothing with the others.
  lemma OthersApart<T>(ls: seq<List<T>>, i: nat, j: nat, all: set<Node<T>>)
    requires World(ls, all) && i < |ls| && j < |ls|
    ensures forall k, n :: 0 <= k < |ls| && k != i && k != j && n in ls[k].nodes ==> n !in ls[i].nodes && n !in ls[j].nodes
  {
  }

  // Merges the j-th list into the i-th and leaves the others alone.
  method MergeIn<T>(self: List<T>, other: List<T>, after: (T, T) -> bool,
      ghost ls: seq<List<T>>, ghost i: nat, ghost j: nat, ghost all: set<Node<T>>)
    requires World(ls, all) && i < |ls| && j < |ls| && i != j && ls[i] == self && ls[j] == other
    modifies ls, all
    ensures World(ls, all)
    ensures Contents(ls) == old(Contents(ls))[i := Merged(after, ValueOf, old(self.nodes), old(other.nodes))][j := []]
  {
    hide NodeAt, Distinct, Merged;
    OthersApart(ls, i, j, all);
    Merge(self, other, after);
  }

  method SwapIn<T>(self: List<T>, other: List<T>, ghost ls: seq<List<T>>, ghost i: nat, ghost j: nat, ghost all: set<Node<T>>)
    requires World(ls, all) && i < |ls| && j < |ls| && i != j && ls[i] == self && ls[j] == other
    modifies ls, all
    ensures World(ls, all)
    ensures Contents(ls) == old(Contents(ls))[i := old(other.nodes)][j := old(self.nodes)]
  {
    hide NodeAt, Distinct;
    OthersApart(ls, i, j, all);
    self.Swap(other);
  }

  // Moves the head of `other` to the empty list `self`.
  method TakeHead<T>(self: List<T>, other: List<T>, ghost ls: seq<List<T>>, ghost i: nat, ghost j: nat, ghost all: set<Node<T>>)
    requires World(ls, all) && i < |ls| && j < |ls| && i != j && ls[i] == self && ls[j] == other
    requires self.nodes == [] && other.nodes != []
    modifies ls, all
    ensures World(ls, all)
    ensures Contents(ls) == old(Contents(ls))[i := [old(other.nodes)[0]]][j := old(other.nodes)[1..]]
  {
    hide NodeAt, Distinct;
    OthersApart(ls, i, j, all);
    At(other.nodes, 0);
    FirstOut(other.nodes);
    self.Transfer(other, self.head, other.head, true, 0, 0);
    assert self.nodes == [old(other.nodes)[0]];
  }

  lemma Lists<T>(ls: seq<List<T>>, all: set<Node<T>>, i: nat)
    requires World(ls, all) && i < |ls|
    ensures ls[i].Valid() && Contents(ls)[i] == ls[i].nodes
  {
  }

  // ----- sorting -----

  // The contents of the input list, the carry and the slots, between two rounds: the carry
  // is empty, the slots hold the elements taken so far.
  ghost predicate Counting<T(!new)>(after: (T, T) -> bool, c: seq<seq<Node<T>>>, fill: nat, nodes: seq<Node<T>>) {
    && |c| == 66 && c[1] == [] && |c[0]| <= |nodes| < Pow2(64)
    && var taken := nodes[..|nodes| - |c[0]|];
      nodes == taken + c[0] && Runs(after, ValueOf, c[2..], fill) && Stable(after, ValueOf, taken, Flat(c[2..]))
  }

  // During a round: the carry has gone past the slots below k.
  ghost predicate Rippling<T(!new)>(after: (T, T) -> bool, c: seq<seq<Node<T>>>, fill: nat, k: nat, nodes: seq<Node<T>>) {
    && |c| == 66 && |c[0]| <= |nodes| < Pow2(64)
    && var taken := nodes[..|nodes| - |c[0]|];
      nodes == taken + c[0] && Carrying(after, ValueOf, c[2..], fill, c[1], k, taken)
  }

  lemma StartRound<T(!new)>(after: (T, T) -> bool, c: seq<seq<Node<T>>>, fill: nat, nodes: seq<Node<T>>)
    requires Counting(after, c, fill, nodes) && c[0] != []
    ensures Rippling(after, c[1 := [c[0][0]]][0 := c[0][1..]], fill, 0, nodes)
  {
    hide Runs, Stable, Flat, Pow2, Carrying;
    var d, n := c[1 := [c[0][0]]][0 := c[0][1..]], |nodes| - |c[0]|;
    StartCarry(after, ValueOf, c[2..], fill, c[0][0], nodes[..n]);
    assert d[2..] == c[2..] && nodes[..n + 1] == nodes[..n] + [c[0][0]];
  }

  lemma MergeSlot<T(!new)>(after: (T, T) -> bool, c: seq<seq<Node<T>>>, fill: nat, k: nat, nodes: seq<Node<T>>)
    requires StrictWeak(after) && Rippling(after, c, fill, k, nodes) && k < fill <= 64 && c[2 + k] != []
    ensures Rippling(after, c[1 := Merged(after, ValueOf, c[2 + k], c[1])][2 + k := []], fill, k + 1, nodes)
  {
    hide StrictWeak, Pow2, Carrying;
    var d := c[1 := Merged(after, ValueOf, c[2 + k], c[1])][2 + k := []];
    CarryOver(after, ValueOf, c[2..], fill, c[1], k, nodes[..|nodes| - |c[0]|]);
    assert d[2..] == c[2..][k := []];
  }

  lemma EndRound<T(!new)>(after: (T, T) -> bool, c: seq<seq<Node<T>>>, fill: nat, k: nat, nodes: seq<Node<T>>)
    requires Rippling(after, c, fill, k, nodes) && (k == fill || (k < 64 && c[2 + k] == []))
    ensures k < 64 && Counting(after, c[1 := c[2 + k]][2 + k := c[1]], if k == fill then fill + 1 else fill, nodes)
  {
    hide Pow2, Stable, Flat, Sorted, Values;
    var taken := nodes[..|nodes| - |c[0]|];
    CarryFits(after, ValueOf, c[2..], fill, c[1], k, taken);
    var d := c[1 := c[2 + k]][2 + k := c[1]];
    EndCarry(after, ValueOf, c[2..], fill, c[1], k, taken);
    assert d[2..] == c[2..][k := c[1]];
  }

  lemma CountingBounds<T(!new)>(after: (T, T) -> bool, c: seq<seq<Node<T>>>, fill: nat, nodes: seq<Node<T>>)
    requires Counting(after, c, fill, nodes)
    ensures |c| == 66 && fill <= 64 && c[1] == []
  {
  }

  // Merges the carry into a slot and takes the result out again.
  method Ripple<T(!new)>(carry: List<T>, slot: List<T>, after: (T, T) -> bool, ghost ls: seq<List<T>>, ghost fill: nat,
      ghost counter: nat, ghost all: set<Node<T>>, ghost nodes: seq<Node<T>>)
    requires StrictWeak(after) && World(ls, all) && |ls| == 66 && counter < fill <= 64
    requires ls[1] == carry && ls[2 + counter] == slot && slot.nodes != []
    requires Rippling(after, Contents(ls), fill, counter, nodes)
    modifies ls, all
    ensures World(ls, all) && Rippling(after, Contents(ls), fill, counter + 1, nodes)
    ensures Contents(ls)[0] == old(Contents(ls)[0])
  {
    hide World, Contents, Rippling, Merged, StrictWeak;
    MergeSlot(after, Contents(ls), fill, counter, nodes);
    MergeIn(slot, carry, after, ls, 2 + counter, 1, all);
    SwapIn(carry, slot, ls, 1, 2 + counter, all);
    assert Contents(ls) == old(Contents(ls))[1 := Merged(after, ValueOf, old(slot.nodes), old(carry.nodes))][2 + counter := []];
  }

  // One round: takes the head of the list and adds it to the counter. The slots never run out.
  method AddOne<T(!new)>(list: List<T>, carry: List<T>, temp: seq<List<T>>, fill: nat, after: (T, T) -> bool,
      ghost all: set<Node<T>>, ghost nodes: seq<Node<T>>) returns (fill': nat)
    requires StrictWeak(after) && |temp| == 64 && list.nodes != []
    requires World([list, carry] + temp, all) && Counting(after, Contents([list, carry] + temp), fill, nodes)
    modifies list, carry, temp, all
    ensures World([list, carry] + temp, all) && Counting(after, Contents([list, carry] + temp), fill', nodes)
    ensures fill' > 0 && |list.nodes| == old(|list.nodes|) - 1
  {
    ghost var ls := [list, carry] + temp;
    hide World, Contents, Counting, Rippling, Merged, StrictWeak;
    CountingBounds(after, Contents(ls), fill, nodes);
    StartRound(after, Contents(ls), fill, nodes);
    TakeHead(carry, list, ls, 1, 0, all);
    var counter: nat := 0;
    while counter != fill && !IsEmpty(temp[counter], ls, 2 + counter, all)
      invariant counter <= fill <= 64
      invariant World(ls, all) && Rippling(after, Contents(ls), fill, counter, nodes)
      invariant Contents(ls)[0] == old(list.nodes)[1..]
      decreases fill - counter
    {
      Ripple(carry, temp[counter], after, ls, fill, counter, all, nodes);
      counter := counter + 1;
    }
    EndRound(after, Contents(ls), fill, counter, nodes);
    SwapIn(carry, temp[counter], ls, 1, 2 + counter, all);
    fill' := if counter == fill then fill + 1 else fill;
  }

  predicate IsEmpty<T>(list: List<T>, ghost ls: seq<List<T>>, ghost i: nat, ghost all: set<Node<T>>)
    requires World(ls, all) && i < |ls| && ls[i] == list
    reads ls, all
    ensures IsEmpty(list, ls, i, all) <==> Contents(ls)[i] == []
  {
    list.Empty()
  }

  method NewLists<T>(n: nat) returns (ls: seq<List<T>>)
    ensures |ls| == n && fresh(ls)
    ensures forall i :: 0 <= i < n ==> ls[i].Valid() && ls[i].nodes == []
    ensures forall i, j :: 0 <= i < j < n ==> ls[i] != ls[j]
  {
    ls := [];
    while |ls| < n
      invariant |ls| <= n && fresh(ls)
      invariant forall i :: 0 <= i < |ls| ==> ls[i].Valid() && ls[i].nodes == []
      invariant forall i, j :: 0 <= i < j < |ls| ==> ls[i] != ls[j]
    {
      var l := new List<T>();
      ls := ls + [l];
    }
  }

  lemma StartCounting<T(!new)>(after: (T, T) -> bool, ls: seq<List<T>>, all: set<Node<T>>, nodes: seq<Node<T>>)
    requires |ls| == 66 && |nodes| < Pow2(64) && ls[0].Valid() && ls[0].nodes == nodes && Inside(nodes, all)
    requires forall i, j :: 0 <= i < j < |ls| ==> ls[i] != ls[j]
    requires forall i :: 1 <= i < |ls| ==> ls[i].Valid() && ls[i].nodes == []
    ensures World(ls, all) && Counting(after, Contents(ls), 0, nodes)
  {
    hide NodeAt, Distinct, Pow2;
    AllEmpty(Contents(ls)[2..]);
  }

  // The slots from the k-th on, and the one below it, hold what is not yet merged.
  ghost predicate Gathering<T(!new)>(after: (T, T) -> bool, c: seq<seq<Node<T>>>, fill: nat, k: nat, nodes: seq<Node<T>>) {
    |c| == 66 && c[0] == [] && 0 < k <= fill <= 64 && Collecting(after, ValueOf, c[2..], fill, k, nodes)
  }

  lemma StartGathering<T(!new)>(after: (T, T) -> bool, c: seq<seq<Node<T>>>, fill: nat, nodes: seq<Node<T>>)
    requires Counting(after, c, fill, nodes) && fill > 0 && c[0] == []
    ensures Gathering(after, c, fill, 1, nodes)
  {
    assert nodes[..|nodes|] == nodes;
    StartCollecting(after, ValueOf, c[2..], fill, nodes);
  }

  lemma Gather<T(!new)>(after: (T, T) -> bool, c: seq<seq<Node<T>>>, fill: nat, k: nat, nodes: seq<Node<T>>)
    requires StrictWeak(after) && Gathering(after, c, fill, k, nodes) && k < fill
    ensures Gathering(after, c[2 + k := Merged(after, ValueOf, c[2 + k], c[1 + k])][1 + k := []], fill, k + 1, nodes)
  {
    hide Collecting, StrictWeak;
    var m := Merged(after, ValueOf, c[2 + k], c[1 + k]);
    Collect(after, ValueOf, c[2..], fill, k, nodes);
    assert c[2 + k := m][1 + k := []][2..] == c[2..][k := m][k - 1 := []];
  }

  lemma EndGathering<T(!new)>(after: (T, T) -> bool, c: seq<seq<Node<T>>>, fill: nat, nodes: seq<Node<T>>)
    requires Gathering(after, c, fill, fill, nodes)
    ensures |c| == 66 && 0 < fill <= 64
    ensures Sorted(after, Values(c[1 + fill], ValueOf)) && Stable(after, ValueOf, nodes, c[1 + fill])
  {
    hide Collecting, Sorted, Stable, Values;
    EndCollecting(after, ValueOf, c[2..], fill, nodes);
  }

  lemma GatheringBounds<T(!new)>(after: (T, T) -> bool, c: seq<seq<Node<T>>>, fill: nat, k: nat, nodes: seq<Node<T>>)
    requires Gathering(after, c, fill, k, nodes)
    ensures |c| == 66 && 0 < k <= fill <= 64
  {
  }

  // Merges the slots, younger into older, and gives the result to the empty list.
  method CollectSlots<T(!new)>(list: List<T>, temp: seq<List<T>>, fill: nat, after: (T, T) -> bool,
      ghost ls: seq<List<T>>, ghost all: set<Node<T>>, ghost nodes: seq<Node<T>>)
    requires StrictWeak(after) && |temp| == 64 && |ls| == 66 && ls[0] == list && ls[2..] == temp
    requires World(ls, all) && Gathering(after, Contents(ls), fill, 1, nodes)
    modifies ls, all
    ensures list.Valid() && Sorted(after, Values(list.nodes, ValueOf)) && Stable(after, ValueOf, nodes, list.nodes)
  {
    hide StrictWeak, World, Contents, Gathering, Merged, Sorted, Stable, Values;
    GatheringBounds(after, Contents(ls), fill, 1, nodes);
    var counter := 1;
    while counter != fill
      invariant 0 < counter <= fill <= 64
      invariant World(ls, all) && Gathering(after, Contents(ls), fill, counter, nodes)
      decreases fill - counter
    {
      Gather(after, Contents(ls), fill, counter, nodes);
      MergeIn(temp[counter], temp[counter - 1], after, ls, 2 + counter, 1 + counter, all);
      counter := counter + 1;
    }
    EndGathering(after, Contents(ls), fill, nodes);
    SwapIn(list, temp[fill - 1], ls, 0, 1 + fill, all);
    Lists(ls, all, 0);
  }

  lemma ShortSorted<T(!new)>(after: (T, T) -> bool, nodes: seq<Node<T>>)
    requires |nodes| <= 1
    ensures Sorted(after, Values(nodes, ValueOf)) && Stable(after, ValueOf, nodes, nodes)
  {
  }

  // A size that fits a 64-bit word.
  const WORD: nat := 0x1_0000_0000_0000_0000

  // Sorts the list in place: the same nodes, in order, equivalent ones in their old order.
  method Sort<T(!new)>(list: List<T>, after: (T, T) -> bool)
    requires list.Valid() && StrictWeak(after) && list.size < WORD
    modifies list, list.nodes
    ensures list.Valid()
    ensures Sorted(after, Values(list.nodes, ValueOf)) && Stable(after, ValueOf, old(list.nodes), list.nodes)
  {
    hide StrictWeak, Sorted, Stable, Values, World, Contents, Counting, Gathering, NodeAt, Distinct, Pow2;
    PowerOfWord();
    ghost var nodes := list.nodes;
    if list.size > 1 {
      ghost var all := set n | n in nodes;
      var carry := new List<T>();
      var temp := NewLists(64);
      ghost var ls := [list, carry] + temp;
      StartCounting(after, ls, all, nodes);
      var fill := 0;
      while !IsEmpty(list, ls, 0, all)
        invariant World(ls, all) && Counting(after, Contents(ls), fill, nodes)
        invariant fill == 0 ==> list.nodes == nodes
        decreases |list.nodes|
      {
        fill := AddOne(list, carry, temp, fill, after, all, nodes);
      }
      StartGathering(after, Contents(ls), fill, nodes);
      CollectSlots(list, temp, fill, after, ls, all, nodes);
    } else {
      ShortSorted(after, nodes);
    }
  }
}
