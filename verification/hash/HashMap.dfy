// The resizing hash map: a table of buckets, each a red-black tree of its own.
module HashMap {
  import opened Options
  import opened RedBlack
  import opened BucketTree
  import opened Placement

  const INITIAL_CAPACITY: nat := 16

  ghost predicate IsCapacity(c: nat)
  {
    c == INITIAL_CAPACITY || (c > INITIAL_CAPACITY && c % 2 == 0 && IsCapacity(c / 2))
  }

  // ----- a row of trees -----

  ghost function Nodes<K(!new), V(!new)>(bs: seq<RBTree<K, V>>): set<Node<Entry<K, V>>>
    reads bs
  {
    set b, n | b in bs && n in b.repr :: n
  }

  // Valid trees with distinct keys, in the same order of keys.
  ghost predicate Sound<K(!new), V(!new)>(less: (K, K) -> bool, b: RBTree<K, V>)
    reads b, b.repr
  {
    b.less == less && b.Distinct()
  }

  // Different trees that share no node.
  ghost predicate Forest<K(!new), V(!new)>(less: (K, K) -> bool, bs: seq<RBTree<K, V>>)
    reads bs, Nodes(bs)
  {
    && (forall i :: 0 <= i < |bs| ==> Sound(less, bs[i]))
    && (forall i, j :: 0 <= i < j < |bs| ==> bs[i] != bs[j] && bs[i].repr !! bs[j].repr)
  }

  // The maps that the trees stand for.
  ghost function Maps<K(!new), V(!new)>(less: (K, K) -> bool, bs: seq<RBTree<K, V>>): (ms: seq<map<K, V>>)
    requires Forest(less, bs)
    reads bs, Nodes(bs)
    ensures |ms| == |bs|
  {
    seq(|bs|, i requires 0 <= i < |bs| && Sound(less, bs[i]) reads bs, Nodes(bs) => bs[i].Map())
  }

  // Two rows with nothing in common.
  ghost predicate Apart<K(!new), V(!new)>(bs: seq<RBTree<K, V>>, cs: seq<RBTree<K, V>>)
    reads bs, cs
  {
    (forall b :: b in bs ==> b !in cs) && Nodes(bs) !! Nodes(cs)
  }

  lemma MapsAt<K(!new), V(!new)>(less: (K, K) -> bool, bs: seq<RBTree<K, V>>, i: nat)
    requires Forest(less, bs) && i < |bs|
    ensures bs[i].Valid() && Sound(less, bs[i]) && Maps(less, bs)[i] == bs[i].Map()
  {
  }

  lemma NoTrees<K(!new), V(!new)>(less: (K, K) -> bool)
    ensures Forest<K, V>(less, []) && Maps<K, V>(less, []) == [] && Nodes<K, V>([]) == {}
  {
  }

  lemma OneMore<K(!new), V(!new)>(less: (K, K) -> bool, bs: seq<RBTree<K, V>>, b: RBTree<K, V>)
    requires Forest(less, bs) && Sound(less, b) && b !in bs && b.repr == {}
    ensures Forest(less, bs + [b]) && Maps(less, bs + [b]) == Maps(less, bs) + [b.Map()] && Nodes(bs + [b]) == Nodes(bs)
  {
    hide RBTree.Distinct, RBTree.Map;
  }

  // Inserts a key that the h-th tree does not have.
  method InsertFresh<K(!new, ==), V(!new)>(less: (K, K) -> bool, bs: seq<RBTree<K, V>>, h: nat, key: K, value: V)
    requires Forest(less, bs) && h < |bs| && key !in Maps(less, bs)[h]
    modifies bs, Nodes(bs)
    ensures Forest(less, bs) && Maps(less, bs) == old(Maps(less, bs)[h := Maps(less, bs)[h][key := value]])
    ensures fresh(Nodes(bs) - old(Nodes(bs)))
  {
    hide RBTree.Valid;
    ghost var i := bs[h].Insert(key, value);
  }

  lemma TreesAreNoNodes<K(!new), V(!new)>(cs: seq<RBTree<K, V>>, ns: set<Node<Entry<K, V>>>)
    ensures forall i :: 0 <= i < |cs| ==> cs[i] as object !in (set n | n in ns :: n as object)
  {
  }

  // The same beside another row, which stays as it is.
  method InsertBeside<K(!new, ==), V(!new)>(less: (K, K) -> bool, bs: seq<RBTree<K, V>>, h: nat, key: K, value: V, ghost cs: seq<RBTree<K, V>>)
    requires Forest(less, bs) && h < |bs| && key !in Maps(less, bs)[h] && Forest(less, cs) && Apart(bs, cs)
    modifies bs, Nodes(bs)
    ensures Forest(less, bs) && Maps(less, bs) == old(Maps(less, bs)[h := Maps(less, bs)[h][key := value]])
    ensures fresh(Nodes(bs) - old(Nodes(bs)))
    ensures Forest(less, cs) && Maps(less, cs) == old(Maps(less, cs)) && Apart(bs, cs)
  {
    hide RBTree.Valid, RBTree.Distinct, RBTree.Map, Maps;
    ghost var ms := Maps(less, cs);
    forall i | 0 <= i < |cs| ensures Sound(less, cs[i]) && ms[i] == cs[i].Map() {
      MapsAt(less, cs, i);
    }
    TreesAreNoNodes(cs, Nodes(bs));
    assert forall i :: 0 <= i < |cs| ==> cs[i] in cs && cs[i] !in bs;
    label before:
    InsertFresh(less, bs, h, key, value);
    forall i | 0 <= i < |cs| ensures Sound(less, cs[i]) && ms[i] == cs[i].Map() {
      assert cs[i].repr == old@before(cs[i].repr);
      assert forall n :: n in cs[i].repr ==> n in old@before(Nodes(cs));
    }
    forall i | 0 <= i < |cs| ensures Maps(less, cs)[i] == ms[i] {
      MapsAt(less, cs, i);
    }
    assert Maps(less, cs) == ms;
  }

  method RemoveKey<K(!new, ==), V(!new)>(less: (K, K) -> bool, bs: seq<RBTree<K, V>>, h: nat, key: K) returns (removed: bool)
    requires Forest(less, bs) && h < |bs|
    modifies bs, Nodes(bs)
    ensures removed == (key in old(Maps(less, bs))[h])
    ensures Forest(less, bs) && Maps(less, bs) == old(Maps(less, bs)[h := Maps(less, bs)[h] - {key}])
    ensures fresh(Nodes(bs) - old(Nodes(bs)))
  {
    hide RBTree.Valid;
    removed := bs[h].Remove(key);
  }

  class HashMap<K(!new, ==), V(!new)> {
    const hash: K -> bv64
    const less: (K, K) -> bool
    var buckets: seq<RBTree<K, V>>
    var size: nat
    var capacity: nat
    ghost var content: map<K, V>

    // At most three keys to four buckets, and sixteen buckets doubled some number of times.
    // Every bucket is a red-black tree with distinct keys, and holds exactly the keys of its
    // place.
    ghost predicate Valid()
      reads this, buckets, Nodes(buckets)
    {
      && IsCapacity(capacity) && |buckets| == capacity > 0 && Total(less)
      && Forest(less, buckets) && Holds(hash, Maps(less, buckets), content)
      && size == |content| && 4 * size <= 3 * capacity
    }

    constructor (hash: K -> bv64, less: (K, K) -> bool)
      requires Total(less)
      ensures Valid() && content == map[] && this.hash == hash && this.less == less
      ensures fresh(buckets) && fresh(Nodes(buckets))
    {
      hide RBTree.Valid, Slot, Holds, Total, Forest, Maps;
      var bs := NewTrees(less, INITIAL_CAPACITY);
      NothingHeld(hash, Maps(less, bs));
      this.hash, this.less := hash, less;
      capacity, size, content := INITIAL_CAPACITY, 0, map[];
      buckets := bs;
    }

    method Get(key: K) returns (value: Option<V>)
      requires Valid()
      ensures value == if key in content then Some(content[key]) else None
    {
      hide RBTree.Valid, RBTree.Distinct, Slot, IsCapacity, Holds, Total, Forest, Maps, Sound, Nodes;
      Bucketed(hash, Maps(less, buckets), content, key);
      var h := Slot(hash, key, capacity);
      MapsAt(less, buckets, h);
      value := buckets[h].Find(key);
    }

    // Replaces the value of a key, or adds the key. A table three quarters full doubles first.
    method Put(key: K, value: V)
      requires Valid()
      modifies this, buckets, Nodes(buckets)
      ensures Valid() && content == old(content)[key := value]
      ensures (buckets == old(buckets) || fresh(buckets)) && fresh(Nodes(buckets) - old(Nodes(buckets)))
      ensures capacity == if 4 * old(size) >= 3 * old(capacity) then 2 * old(capacity) else old(capacity)
    {
      hide RBTree.Valid, RBTree.Distinct, Slot, IsCapacity, Holds, Total, Forest, Maps, Sound;
      if 4 * size >= 3 * capacity {
        Resize();
      }
      PutInto(key, value);
    }

    method PutInto(key: K, value: V)
      requires Valid() && 4 * size < 3 * capacity
      modifies this, buckets, Nodes(buckets)
      ensures Valid() && content == old(content)[key := value]
      ensures (buckets == old(buckets) || fresh(buckets)) && fresh(Nodes(buckets) - old(Nodes(buckets)))
      ensures capacity == old(capacity)
    {
      hide RBTree.Valid, RBTree.Distinct, Slot, IsCapacity, Holds, Total, Forest, Maps, Sound;
      MultipleOfFour(capacity);
      Bucketed(hash, Maps(less, buckets), content, key);
      var h := Slot(hash, key, capacity);
      MapsAt(less, buckets, h);
      var oldValue := buckets[h].Find(key);
      if oldValue.Some? {
        RemoveOld(key, h);
      }
      AddNew(key, value, h);
    }

    method RemoveOld(key: K, h: nat)
      requires Valid() && h == Slot(hash, key, capacity) && key in content
      modifies `size, `content, buckets, Nodes(buckets)
      ensures Valid() && content == old(content) - {key} && 4 * size < 3 * capacity
      ensures fresh(Nodes(buckets) - old(Nodes(buckets)))
    {
      hide RBTree.Valid, RBTree.Distinct, Slot, IsCapacity, Holds, Total, Forest, Maps, Sound, Nodes;
      RemoveFrom(hash, Maps(less, buckets), content, key);
      var removed := RemoveKey(less, buckets, h, key);
      size := size - 1;
      content := content - {key};
    }

    // The key is new to its bucket.
    method AddNew(key: K, value: V, h: nat)
      requires Valid() && h == Slot(hash, key, capacity) && key !in content && 4 * size < 3 * capacity
      modifies `size, `content, buckets, Nodes(buckets)
      ensures Valid() && content == old(content)[key := value]
      ensures fresh(Nodes(buckets) - old(Nodes(buckets)))
    {
      hide RBTree.Valid, RBTree.Distinct, Slot, IsCapacity, Holds, Total, Forest, Maps, Sound, Nodes;
      MultipleOfFour(capacity);
      Bucketed(hash, Maps(less, buckets), content, key);
      AddTo(hash, Maps(less, buckets), content, key, value);
      InsertFresh(less, buckets, h, key, value);
      size := size + 1;
      content := content[key := value];
    }

    method Remove(key: K) returns (removed: bool)
      requires Valid()
      modifies this, buckets, Nodes(buckets)
      ensures Valid() && content == old(content) - {key} && removed == (key in old(content))
      ensures capacity == old(capacity) && buckets == old(buckets) && fresh(Nodes(buckets) - old(Nodes(buckets)))
    {
      hide RBTree.Valid, RBTree.Distinct, Slot, IsCapacity, Holds, Total, Forest, Maps, Sound, Nodes;
      Bucketed(hash, Maps(less, buckets), content, key);
      var h := Slot(hash, key, capacity);
      RemoveFrom(hash, Maps(less, buckets), content, key);
      removed := RemoveKey(less, buckets, h, key);
      content := content - {key};
      if removed {
        size := size - 1;
      }
    }

    // Doubles the table; loses nothing and duplicates nothing.
    method Resize()
      requires Valid()
      modifies `buckets, `capacity
      ensures Valid() && capacity == 2 * old(capacity) && fresh(buckets) && fresh(Nodes(buckets))
    {
      hide RBTree.Valid, RBTree.Distinct, Slot, IsCapacity, Holds, Moved, Total, Forest, Maps, Sound;
      ghost var from := Maps(less, buckets);
      Doubled(capacity);
      ghost var before := Nodes(buckets);
      assert Forest(less, buckets) && forall n :: n in before ==> allocated(n);
      var newBuckets := NewTrees(less, capacity * 2);
      assert forall b :: b in buckets ==> b.repr == old(b.repr);
      assert Nodes(buckets) == before;
      assert Forest(less, buckets);
      NothingMoved(hash, from, content, Maps(less, newBuckets));
      for i := 0 to |buckets|
        invariant |newBuckets| == 2 * capacity && fresh(newBuckets) && fresh(Nodes(newBuckets))
        invariant Forest(less, buckets) && Maps(less, buckets) == from && Forest(less, newBuckets)
        invariant Apart(newBuckets, buckets)
        invariant Moved(hash, from, content, Maps(less, newBuckets), i, KeysOf(from, i))
      {
        MoveBucket(newBuckets, i, from);
        NextBucket(hash, from, content, Maps(less, newBuckets), i);
      }
      AllMoved(hash, from, content, Maps(less, newBuckets));
      buckets, capacity := newBuckets, capacity * 2;
    }

    // The traversal of one old bucket. Every key it meets is new to its new bucket.
    method MoveBucket(bs: seq<RBTree<K, V>>, i: nat, ghost from: seq<map<K, V>>)
      requires Forest(less, buckets) && from == Maps(less, buckets) && i < |buckets| && |bs| > 0
      requires Forest(less, bs) && Apart(bs, buckets)
      requires Holds(hash, from, content) && Moved(hash, from, content, Maps(less, bs), i, from[i].Keys)
      modifies bs, Nodes(bs)
      ensures Forest(less, buckets) && Maps(less, buckets) == from && Apart(bs, buckets)
      ensures Forest(less, bs) && fresh(Nodes(bs) - old(Nodes(bs)))
      ensures Moved(hash, from, content, Maps(less, bs), i, {})
    {
      hide RBTree.Valid, Slot, Holds, Moved, Total, Forest, Maps, Apart, KeysFrom;
      MapsAt(less, buckets, i);
      ghost var before := Nodes(buckets);
      assert Forest(less, buckets) && forall n :: n in before ==> allocated(n);
      var entries := buckets[i].InorderTraversal();
      assert forall b :: b in buckets ==> b.repr == old(b.repr);
      assert Nodes(buckets) == before;
      assert Forest(less, buckets);
      AllLeft(less, entries, from[i]);
      MoveEntries(bs, entries, i, from);
    }

    method MoveEntries(bs: seq<RBTree<K, V>>, entries: seq<Entry<K, V>>, ghost i: nat, ghost from: seq<map<K, V>>)
      requires Forest(less, buckets) && from == Maps(less, buckets) && i < |buckets| && |bs| > 0
      requires Total(less) && Strict(less, entries) && from[i] == Content(less, entries)
      requires Forest(less, bs) && Apart(bs, buckets) && Holds(hash, from, content)
      requires Moved(hash, from, content, Maps(less, bs), i, KeysFrom(entries, 0))
      modifies bs, Nodes(bs)
      ensures Forest(less, buckets) && Maps(less, buckets) == from && Apart(bs, buckets)
      ensures Forest(less, bs) && fresh(Nodes(bs) - old(Nodes(bs)))
      ensures Moved(hash, from, content, Maps(less, bs), i, KeysFrom(entries, |entries|))
    {
      hide RBTree.Valid, Slot, Holds, Moved, Total, Strict, Content, Forest, Maps, Apart, KeysFrom;
      for j := 0 to |entries|
        invariant Forest(less, buckets) && Maps(less, buckets) == from && Apart(bs, buckets)
        invariant Forest(less, bs) && fresh(Nodes(bs) - old(Nodes(bs)))
        invariant Moved(hash, from, content, Maps(less, bs), i, KeysFrom(entries, j))
      {
        OneLess(less, entries, from[i], j);
        MoveEntry(bs, entries[j], i, from, KeysFrom(entries, j));
      }
    }

    method MoveEntry(bs: seq<RBTree<K, V>>, e: Entry<K, V>, ghost i: nat, ghost from: seq<map<K, V>>, ghost left: set<K>)
      requires Forest(less, buckets) && from == Maps(less, buckets) && i < |buckets| && |bs| > 0
      requires Forest(less, bs) && Apart(bs, buckets) && Holds(hash, from, content)
      requires e.key in left && left <= from[i].Keys && from[i][e.key] == e.value
      requires Moved(hash, from, content, Maps(less, bs), i, left)
      modifies bs, Nodes(bs)
      ensures Forest(less, buckets) && Maps(less, buckets) == from && Apart(bs, buckets)
      ensures Forest(less, bs) && fresh(Nodes(bs) - old(Nodes(bs)))
      ensures Moved(hash, from, content, Maps(less, bs), i, left - {e.key})
    {
      hide RBTree.Valid, Slot, Holds, Moved, Total, Forest, Maps, Apart;
      var newHash := Slot(hash, e.key, |bs|);
      FreshThere(hash, from, content, Maps(less, bs), i, left, e.key);
      MoveOne(hash, from, content, Maps(less, bs), i, left, e.key);
      InsertBeside(less, bs, newHash, e.key, e.value, buckets);
    }
  }

  // The keys of the entries from the j-th on.
  ghost function KeysFrom<K, V>(entries: seq<Entry<K, V>>, j: nat): set<K> {
    set n | j <= n < |entries| :: entries[n].key
  }

  lemma AllLeft<K(!new), V>(less: (K, K) -> bool, entries: seq<Entry<K, V>>, m: map<K, V>)
    requires Total(less) && Strict(less, entries) && m == Content(less, entries)
    ensures KeysFrom(entries, 0) == m.Keys && KeysFrom(entries, |entries|) == {}
  {
  }

  lemma OneLess<K(!new), V>(less: (K, K) -> bool, entries: seq<Entry<K, V>>, m: map<K, V>, j: nat)
    requires Total(less) && Strict(less, entries) && m == Content(less, entries) && j < |entries|
    ensures entries[j].key in KeysFrom(entries, j) && KeysFrom(entries, j) <= m.Keys
    ensures entries[j].key in m && m[entries[j].key] == entries[j].value
    ensures KeysFrom(entries, j + 1) == KeysFrom(entries, j) - {entries[j].key}
  {
  }

  method NewTrees<K(!new, ==), V(!new)>(less: (K, K) -> bool, n: nat) returns (bs: seq<RBTree<K, V>>)
    requires Total(less)
    ensures |bs| == n && fresh(bs) && Nodes(bs) == {} && Forest(less, bs)
    ensures forall i :: 0 <= i < n ==> Maps(less, bs)[i] == map[]
  {
    hide RBTree.Valid, RBTree.Distinct, Total, Forest, Maps, Nodes;
    bs := [];
    NoTrees<K, V>(less);
    while |bs| < n
      invariant |bs| <= n && fresh(bs) && Nodes(bs) == {} && Forest(less, bs)
      invariant forall i :: 0 <= i < |bs| ==> Maps(less, bs)[i] == map[]
    {
      var b := new RBTree<K, V>(less);
      OneMore(less, bs, b);
      bs := bs + [b];
    }
  }

  lemma {:induction false} MultipleOfFour(c: nat)
    requires IsCapacity(c)
    ensures c % 4 == 0 && c > 0
  {
    if c > INITIAL_CAPACITY {
      MultipleOfFour(c / 2);
    }
  }

  lemma Doubled(c: nat)
    requires IsCapacity(c)
    ensures IsCapacity(2 * c) && c > 0
  {
    MultipleOfFour(c);
  }
}
