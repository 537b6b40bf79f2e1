// The chained hash set.
module UnorderedSet {
  import opened HashChains
  import opened Primes

  class HashSet<T(!new)> {
    const hash: T -> nat
    const equal: (T, T) -> bool
    var bucket: seq<Node?<T>>
    var size: nat
    var bucketCount: nat
    ghost var chains: seq<seq<Node<T>>>

    // Each bucket holds the head of its chain.
    ghost predicate Linked()
      reads this, Nodes(chains)
    {
      && |bucket| == bucketCount == |chains|
      && forall i :: 0 <= i < |chains| ==> (forall n :: n in chains[i] ==> n in Nodes(chains)) && Chain(bucket[i], chains[i])
    }

    // Every key sits once, in the chain of its hash.
    ghost predicate Coherent()
      reads this, Nodes(chains)
    {
      Linked() && Sound(hash, equal, chains) && size == |Nodes(chains)| && bucketCount <= LAST
    }

    // The table is never fuller than one key a bucket until it has the largest number of
    // buckets.
    ghost predicate Valid()
      reads this, Nodes(chains)
    {
      Coherent() && (size <= bucketCount || bucketCount == LAST)
    }

    ghost function Contents(): set<T>
      reads this
    {
      Keys(Nodes(chains))
    }

    constructor (hash: T -> nat, equal: (T, T) -> bool)
      requires Consistent(hash, equal)
      ensures Valid() && Contents() == {} && bucketCount == 0 && this.hash == hash && this.equal == equal
    {
      this.hash, this.equal := hash, equal;
      bucket, size, bucketCount, chains := [], 0, 0, [];
    }

    function Index(x: T): nat
      requires bucketCount > 0
      reads this
    {
      hash(x) % bucketCount
    }

    // Whether an equal key is in the set.
    ghost predicate Has(x: T)
      reads this
    {
      exists k :: k in Contents() && equal(x, k)
    }

    method Find(x: T) returns (n: Node?<T>)
      requires Valid()
      ensures n != null ==> n in Nodes(chains) && equal(x, n.key)
      ensures n == null <==> !Has(x)
    {
      hide NodeAt;
      n := null;
      if size == 0 {
        return;
      }
      var b := Index(x);
      n := bucket[b];
      ghost var s, j: nat := chains[b], 0;
      while n != null
        invariant j <= |s| && n == NodeAt(s, j) && forall k :: 0 <= k < j ==> !equal(x, s[k].key)
        decreases |s| - j
      {
        NodeAtIs(s, j);
        if equal(x, n.key) {
          InNodes(chains, b, j);
          return;
        }
        n := n.next;
        j := j + 1;
      }
      NodeAtIs(s, j);
    }

    // Puts a node at the head of a chain.
    method Push(b: nat, n: Node<T>)
      requires Linked() && b < bucketCount && n !in Nodes(chains)
      modifies `bucket, `size, `chains, n
      ensures |bucket| == bucketCount == |chains| && chains == old(chains[b := [n] + chains[b]]) && size == old(size) + 1
      ensures forall i :: 0 <= i < |chains| ==> Chain(bucket[i], chains[i])
    {
      hide NodeAt, Nodes;
      ghost var s := chains[b];
      n.next := bucket[b];
      size := size + 1;
      bucket := bucket[b := n];
      chains := chains[b := [n] + s];
      forall j | 0 <= j < |chains[b]| ensures chains[b][j].next == NodeAt(chains[b], j + 1) {
        ConsAt(n, s, j);
        assert j > 0 ==> chains[b][j] == s[j - 1];
      }
      ConsAt(n, s, 0);
    }

    // Takes a node out of a chain, given the one before it.
    method LinkedErase(b: nat, n: Node<T>, prev: Node?<T>, next: Node?<T>, ghost p: nat)
      requires Linked() && Sound(hash, equal, chains) && size > 0
      requires b < bucketCount && p < |chains[b]| && chains[b][p] == n
      requires prev == NodeAt(chains[b], p - 1) && next == NodeAt(chains[b], p + 1)
      modifies `bucket, `size, `chains, prev
      ensures |bucket| == bucketCount == |chains| && size == old(size) - 1
      ensures chains == old(chains[b := chains[b][..p] + chains[b][p + 1..]])
      ensures forall i :: 0 <= i < |chains| ==> Chain(bucket[i], chains[i])
    {
      hide NodeAt, Nodes, Sound;
      ghost var s := chains[b];
      if p > 0 {
        Alone(hash, equal, chains, b, p - 1);
        NodeAtIs(s, p - 1);
      } else {
        NodeAtIs(s, -1);
      }
      size := size - 1;
      if prev != null {
        prev.next := next;
      } else {
        bucket := bucket[b := next];
      }
      chains := chains[b := s[..p] + s[p + 1..]];
      forall j | 0 <= j < |chains[b]| ensures chains[b][j].next == NodeAt(chains[b], j + 1) {
        CutAt(s, p, j);
      }
      CutAt(s, p, 0);
    }

    lemma IsLinked()
      requires |bucket| == bucketCount == |chains|
      requires forall i :: 0 <= i < |chains| ==> Chain(bucket[i], chains[i])
      ensures Linked()
    {
    }

    // Adds a node with a key that is not in the set yet.
    method Add(n: Node<T>)
      requires Coherent() && bucketCount > 0
      requires forall m :: m in Nodes(chains) ==> !equal(n.key, m.key)
      modifies `bucket, `size, `chains, n
      ensures Coherent() && Nodes(chains) == old(Nodes(chains)) + {n} && size == old(size) + 1
    {
      hide Nodes, Sound, Chain;
      var b := Index(n.key);
      PushSound(hash, equal, chains, b, n);
      Push(b, n);
      IsLinked();
    }

    // ----- rehashing -----

    // The first node, if any.
    method Begin() returns (n: Node?<T>, ghost b: nat)
      requires Linked()
      ensures n == null ==> forall i :: 0 <= i < |chains| ==> chains[i] == []
      ensures n != null ==> b < |chains| && chains[b] != [] && n == chains[b][0] && forall i :: 0 <= i < b ==> chains[i] == []
    {
      n, b := null, 0;
      for i := 0 to bucketCount
        invariant forall k :: 0 <= k < i ==> chains[k] == []
      {
        if bucket[i] != null {
          return bucket[i], i;
        }
      }
    }

    // The chains after the index-th and the rest of that one are still linked.
    ghost predicate Remaining(index: nat, j: nat)
      reads this, Nodes(chains)
    {
      && |bucket| == bucketCount == |chains| && index < |chains| && j <= |chains[index]|
      && (forall i :: index < i < |chains| ==> (forall n :: n in chains[i] ==> n in Nodes(chains)) && Chain(bucket[i], chains[i]))
      && (forall l :: j <= l < |chains[index]| ==> chains[index][l] in Nodes(chains) && chains[index][l].next == NodeAt(chains[index], l + 1))
    }

    // Moves one node to the new table.
    method MoveOne(rehashed: HashSet<T>, node: Node<T>, ghost index: nat, ghost j: nat)
      requires rehashed != this && Sound(hash, equal, chains) && rehashed.hash == hash && rehashed.equal == equal
      requires Remaining(index, j) && j < |chains[index]| && node == chains[index][j]
      requires rehashed.Coherent() && rehashed.bucketCount > 0 && Nodes(rehashed.chains) == Before(chains, index, j)
      modifies rehashed, node
      ensures Remaining(index, j + 1)
      ensures rehashed.Coherent() && Nodes(rehashed.chains) == Before(chains, index, j + 1)
      ensures rehashed.bucketCount == old(rehashed.bucketCount) && rehashed.size == old(rehashed.size) + 1
    {
      hide NodeAt, Nodes, Before;
      Alone(hash, equal, chains, index, j);
      BeforeGrows(hash, equal, chains, index, j);
      rehashed.Add(node);
    }

    // The next non-empty bucket.
    method Scan(index: nat, ghost j: nat) returns (next: Node?<T>, i: nat)
      requires Remaining(index, j)
      ensures next == null ==> forall k :: index < k < |chains| ==> chains[k] == []
      ensures next != null ==> index < i < |chains| && chains[i] != [] && next == chains[i][0] && forall k :: index < k < i ==> chains[k] == []
    {
      for k := index + 1 to bucketCount
        invariant forall l :: index < l < k ==> chains[l] == []
      {
        next := bucket[k];
        if next != null {
          return next, k;
        }
      }
      return null, 0;
    }

    // Moves every node to the new table, each once, reusing it while the walk goes on.
    method MoveAll(rehashed: HashSet<T>)
      requires rehashed != this && Coherent() && rehashed.hash == hash && rehashed.equal == equal
      requires rehashed.Coherent() && rehashed.bucketCount > 0 && Nodes(rehashed.chains) == {}
      modifies rehashed, Nodes(chains)
      ensures rehashed.Coherent() && Nodes(rehashed.chains) == Nodes(chains)
      ensures rehashed.bucketCount == old(rehashed.bucketCount)
    {
      hide NodeAt, Nodes, Before, Sound;
      var first, b := Begin();
      if first == null {
        NothingBefore(chains);
        return;
      }
      var node: Node<T> := first;
      var index, next, done := Index(node.key), node.next, false;
      ghost var j: nat := 0;
      StartMoving(b, index);
      while !done
        invariant rehashed.Coherent() && rehashed.bucketCount == old(rehashed.bucketCount)
        invariant if done then Nodes(rehashed.chains) == Nodes(chains)
          else At(index, j, node, next) && Nodes(rehashed.chains) == Before(chains, index, j)
        decreases bucketCount - index, if index < |chains| then |chains[index]| - j else 0, !done
      {
        MoveOne(rehashed, node, index, j);
        done, index, node, next, j := Step(index, node, next, j);
      }
    }

    // The iterator is at the j-th node of the index-th chain, and has saved the next one.
    ghost predicate At(index: nat, j: nat, node: Node<T>, next: Node?<T>)
      reads this, Nodes(chains)
    {
      Remaining(index, j) && j < |chains[index]| && node == chains[index][j] && next == NodeAt(chains[index], j + 1)
    }

    // The iterator's step: the next node of the chain, or the head of the next chain.
    method Step(index: nat, node: Node<T>, next: Node?<T>, ghost j: nat)
      returns (done: bool, index': nat, node': Node<T>, next': Node?<T>, ghost j': nat)
      requires Remaining(index, j + 1) && next == NodeAt(chains[index], j + 1)
      ensures if done then Before(chains, index, j + 1) == Nodes(chains) && index' == index && j' == j
        else At(index', j', node', next') && Before(chains, index', j') == Before(chains, index, j + 1)
      ensures !done ==> index' > index || (index' == index && j' > j)
    {
      hide NodeAt, Nodes, Before;
      NodeAtIs(chains[index], j + 1);
      done, index', node', next', j' := false, index, node, next, j;
      if next == null {
        var n, i := Scan(index, j + 1);
        if n == null {
          done := true;
          AllBefore(chains, index);
        } else {
          SkipEmpty(chains, index, i);
          EnterChain(index, i, j + 1);
          index', node', next', j' := i, n, n.next, 0;
        }
      } else {
        ContinueChain(index, j + 1);
        node', next', j' := next, next.next, j + 1;
      }
    }

    lemma StartMoving(b: nat, index: nat)
      requires Coherent() && b < |chains| && chains[b] != [] && index == hash(chains[b][0].key) % |chains|
      requires forall i :: 0 <= i < b ==> chains[i] == []
      ensures index == b && Remaining(index, 0) && Before(chains, index, 0) == {}
      ensures chains[b][0].next == NodeAt(chains[b], 1)
    {
      forall i, n | 0 <= i < |chains| && n in chains[i] ensures n in Nodes(chains) {
      }
    }

    lemma EnterChain(index: nat, i: nat, j: nat)
      requires Remaining(index, j) && index < i < |chains| && chains[i] != []
      ensures Remaining(i, 0) && chains[i][0].next == NodeAt(chains[i], 1)
    {
    }

    lemma ContinueChain(index: nat, j: nat)
      requires Remaining(index, j) && j < |chains[index]|
      ensures chains[index][j].next == NodeAt(chains[index], j + 1)
    {
    }

    // The desired number of buckets, but more than there are keys.
    function Desired(desired: nat): nat
      reads this
    {
      if desired <= size then size + 1 else desired
    }

    // Gives the table the closest number of buckets and moves every node to its new chain.
    method Rehash(desired: nat)
      requires Coherent()
      modifies this, Nodes(chains)
      ensures Valid() && Nodes(chains) == old(Nodes(chains)) && size == old(size)
      ensures Closest(old(Desired(desired)), bucketCount) && bucketCount >= 2
      decreases 1, 0
    {
      hide Nodes, Sound, Chain;
      var count := Desired(desired);
      var expected := ClosestPrime(count);
      if expected != bucketCount {
        var rehashed := Rehashed(count);
        Adopt(rehashed);
      }
    }

    // A new table that has taken over all nodes.
    method Rehashed(count: nat) returns (rehashed: HashSet<T>)
      requires Coherent() && count > size
      modifies Nodes(chains)
      ensures fresh(rehashed) && rehashed.hash == hash && rehashed.equal == equal
      ensures rehashed.Valid() && Nodes(rehashed.chains) == Nodes(chains)
      ensures Closest(count, rehashed.bucketCount) && rehashed.bucketCount >= 2
      decreases 0, 1
    {
      hide Nodes, Chain, Hashed, AllDifferent, Closest;
      ghost var n := |Nodes(chains)|;
      rehashed := new HashSet<T>(hash, equal);
      var ok := rehashed.Reserve(count);
      MoveAll(rehashed);
      EnoughRoom(count, rehashed.bucketCount);
    }

    method Adopt(other: HashSet<T>)
      requires other != this && other.Valid() && other.hash == hash && other.equal == equal
      modifies this
      ensures Valid() && chains == other.chains && size == other.size && bucketCount == other.bucketCount
    {
      hide Nodes, Sound, Chain;
      bucket := other.bucket;
      size := other.size;
      bucketCount := other.bucketCount;
      chains := other.chains;
    }

    // On an empty table this allocates the closest number of buckets and copies the old ones
    // over without asking whether they fit. `ok` says whether they did; if not, the copy
    // leaves the new table, and the model stops there with the old one.
    method Reserve(desired: nat) returns (ok: bool)
      requires Coherent()
      modifies this, Nodes(chains)
      ensures ok ==>
        && Valid() && Nodes(chains) == old(Nodes(chains)) && size == old(size)
        && Closest(if size == 0 then desired else old(Desired(desired)), bucketCount) && bucketCount >= 2
      ensures ok <==> old(size > 0 || forall p :: Closest(desired, p) ==> bucketCount <= p)
      ensures old(bucketCount) == 0 ==> ok
      ensures !ok ==> Coherent() && chains == old(chains) && size == old(size) && bucketCount == old(bucketCount)
      decreases if size == 0 then 0 else 2, 0
    {
      hide Sound, Closest;
      if size > 0 {
        Rehash(desired);
        ok := true;
      } else {
        var count := ClosestPrime(desired);
        OnlyClosest(desired, count);
        ok := Allocate(count);
      }
    }

    method Allocate(count: nat) returns (ok: bool)
      requires Coherent() && size == 0 && count <= LAST
      modifies `bucket, `bucketCount, `chains
      ensures ok <==> old(bucketCount) <= count
      ensures ok ==> Coherent() && Nodes(chains) == old(Nodes(chains)) && bucketCount == count
      ensures !ok ==> bucket == old(bucket) && chains == old(chains) && bucketCount == old(bucketCount)
    {
      EmptyChains(chains);
      var temp: seq<Node?<T>> := seq(count, i => null);
      for i := 0 to bucketCount
        invariant i <= count == |temp| && forall k :: 0 <= k < count ==> temp[k] == null
      {
        if i == count {
          return false;
        }
        temp := temp[i := bucket[i]];
      }
      bucket := temp;
      bucketCount := count;
      chains := seq(count, i => []);
      NothingBefore(chains);
      ok := true;
    }

    // ----- inserting and erasing -----

    // Adds the key unless an equal one is there. Afterwards there is at most one key a bucket
    // exactly as long as there are at most LAST keys.
    method Insert(x: T)
      requires Valid()
      modifies this, Nodes(chains)
      ensures Valid() && Contents() == old(Contents()) + (if old(Has(x)) then {} else {x})
      ensures fresh(Nodes(chains) - old(Nodes(chains)))
      ensures size <= bucketCount <==> size <= LAST
    {
      hide Valid, Keys;
      FirstBuckets();
      InsertInto(x);
      RoomBound();
    }

    // An empty table starts with the closest number to 12 of buckets.
    method FirstBuckets()
      requires Valid()
      modifies this, Nodes(chains)
      ensures Valid() && bucketCount > 0 && Nodes(chains) == old(Nodes(chains))
    {
      hide Linked, Sound, Closest;
      if size == 0 {
        Rehash(12);
      } else {
        SomeBucket();
      }
    }

    method InsertInto(x: T)
      requires Valid() && bucketCount > 0
      modifies this, Nodes(chains)
      ensures Valid() && Contents() == old(Contents()) + (if old(Has(x)) then {} else {x})
      ensures fresh(Nodes(chains) - old(Nodes(chains)))
    {
      hide Linked, Sound, Has, Keys;
      var found := Find(x);
      if found == null {
        InsertNew(x);
      }
    }

    lemma RoomBound()
      requires Valid()
      ensures size <= bucketCount <==> size <= LAST
    {
    }

    method InsertNew(x: T)
      requires Valid() && bucketCount > 0 && !Has(x)
      modifies this, Nodes(chains)
      ensures Valid() && Contents() == old(Contents()) + {x}
      ensures fresh(Nodes(chains) - old(Nodes(chains)))
    {
      hide Linked, Sound, Closest;
      NoneEqual(x);
      var n := new Node<T>(x);
      Add(n);
      if size > bucketCount {
        Rehash(2 * bucketCount);
      }
    }

    lemma SomeBucket()
      requires Coherent() && size > 0
      ensures bucketCount > 0
    {
    }

    lemma NoneEqual(x: T)
      requires Coherent() && !Has(x)
      ensures forall m :: m in Nodes(chains) ==> !equal(x, m.key)
    {
      hide Nodes;
      forall m | m in Nodes(chains) ensures !equal(x, m.key) {
        assert m.key in Contents();
      }
    }

    // Frees the p-th node of a chain.
    method EraseNode(b: nat, n: Node<T>, prev: Node?<T>, next: Node?<T>, ghost p: nat)
      requires Valid() && b < bucketCount && p < |chains[b]| && chains[b][p] == n
      requires prev == NodeAt(chains[b], p - 1) && next == NodeAt(chains[b], p + 1)
      modifies `bucket, `size, `chains, prev
      ensures Valid() && size == old(size) - 1 && bucketCount == old(bucketCount)
      ensures chains == old(chains[b := chains[b][..p] + chains[b][p + 1..]]) && Nodes(chains) == old(Nodes(chains)) - {n}
    {
      InNodes(chains, b, p);
      RemoveSound(hash, equal, chains, b, p);
      hide NodeAt, Nodes, Sound, Chain;
      LinkedErase(b, n, prev, next, p);
      IsLinked();
    }

    // Walks along the chain to the node with an equal key, with the one before it in hand.
    method Search(b: nat, x: T) returns (n: Node?<T>, prev: Node?<T>, ghost j: nat)
      requires Linked() && b < bucketCount
      ensures n == null ==> forall k :: 0 <= k < |chains[b]| ==> !equal(chains[b][k].key, x)
      ensures n != null ==> j < |chains[b]| && n == chains[b][j] && equal(n.key, x) && prev == NodeAt(chains[b], j - 1)
    {
      hide NodeAt;
      ghost var s := chains[b];
      prev, n, j := null, bucket[b], 0;
      NodeAtIs(s, -1);
      while n != null
        invariant j <= |s| && n == NodeAt(s, j) && prev == NodeAt(s, j - 1)
        invariant forall k :: 0 <= k < j ==> !equal(s[k].key, x)
        decreases |s| - j
      {
        NodeAtIs(s, j);
        if equal(n.key, x) {
          return;
        }
        prev, n := n, n.next;
        j := j + 1;
      }
      NodeAtIs(s, j);
    }

    method Erase(x: T)
      requires Valid()
      modifies this, Nodes(chains)
      ensures Valid() && Contents() == set k | k in old(Contents()) && !equal(k, x)
      ensures Nodes(chains) <= old(Nodes(chains))
    {
      hide NodeAt, Keys, Sound, Chain;
      if size == 0 {
        NoKeys();
        return;
      }
      SomeBucket();
      var b := Index(x);
      var n, prev, j := Search(b, x);
      if n != null {
        PrevIsMine(b, j);
        NextIs(b, j);
        OnlyEqual(x, b, j);
        EraseNode(b, n, prev, n.next, j);
      } else {
        NothingEqual(x);
      }
    }

    lemma PrevIsMine(b: nat, j: nat)
      requires b < |chains| && j < |chains[b]|
      ensures NodeAt(chains[b], j - 1) != null ==> NodeAt(chains[b], j - 1) in Nodes(chains)
    {
      if j > 0 {
        InNodes(chains, b, j - 1);
      }
    }

    lemma NextIs(b: nat, j: nat)
      requires Linked() && b < |chains| && j < |chains[b]|
      ensures chains[b][j].next == NodeAt(chains[b], j + 1)
    {
    }

    lemma NoKeys()
      requires Valid() && size == 0
      ensures Contents() == {}
    {
    }

    // The p-th node of the chain is the only one with a key equal to x.
    lemma OnlyEqual(x: T, b: nat, p: nat)
      requires Coherent() && b < |chains| && p < |chains[b]| && equal(chains[b][p].key, x)
      ensures Keys(Nodes(chains) - {chains[b][p]}) == set k | k in Contents() && !equal(k, x)
    {
      var n := chains[b][p];
      forall m | m in Nodes(chains) && equal(m.key, x) ensures m == n {
        var i :| 0 <= i < |chains| && m in chains[i];
        var j :| 0 <= j < |chains[i]| && chains[i][j] == m;
        OnlyOnce(hash, equal, chains, i, j, b, p);
      }
      hide Nodes;
      InNodes(chains, b, p);
    }

    lemma NothingEqual(x: T)
      requires Coherent() && bucketCount > 0
      requires forall j :: 0 <= j < |chains[Index(x)]| ==> !equal(chains[Index(x)][j].key, x)
      ensures Contents() == set k | k in Contents() && !equal(k, x)
    {
      hide Nodes, Hashed, AllDifferent;
      forall m | m in Nodes(chains) ensures !equal(m.key, x) {
        var i, j := WhereIs(chains, m);
        HashedAt(hash, chains, i, j);
        assert i == Index(x) ==> !equal(chains[Index(x)][j].key, x);
      }
    }

    // Only matching nodes of `all` are gone.
    ghost predicate Sifted(all: set<Node<T>>, match_: T -> bool)
      reads this
    {
      Nodes(chains) <= all && forall n :: n in all && n !in Nodes(chains) ==> match_(n.key)
    }

    // No node of the first i chains matches, nor one of the first p of the next.
    ghost predicate Clean(i: nat, p: nat, match_: T -> bool)
      reads this
    {
      && (forall k, l :: 0 <= k < i && k < |chains| && 0 <= l < |chains[k]| ==> !match_(chains[k][l].key))
      && (i < |chains| ==> forall l :: 0 <= l < p && l < |chains[i]| ==> !match_(chains[i][l].key))
    }

    // Erases the matching keys, chain by chain.
    method RemoveIf(match_: T -> bool) returns (erases: nat)
      requires Valid()
      modifies this, Nodes(chains)
      ensures Valid() && Contents() == set k | k in old(Contents()) && !match_(k)
      ensures erases == old(size) - size
    {
      hide Valid, Sifted, Clean;
      erases := 0;
      ghost var all := Nodes(chains);
      StartSifting(match_);
      var i := 0;
      while i < bucketCount
        invariant Valid() && i <= bucketCount == old(bucketCount) && Sifted(all, match_) && Clean(i, 0, match_) && Nodes(chains) <= all
        invariant erases == old(size) - size
      {
        var erased := SiftChain(i, match_, all);
        erases := erases + erased;
        i := i + 1;
      }
      EndSifting(all, match_);
    }

    method SiftChain(i: nat, match_: T -> bool, ghost all: set<Node<T>>) returns (erased: nat)
      requires Valid() && i < bucketCount && Sifted(all, match_) && Clean(i, 0, match_) && Nodes(chains) <= all
      modifies `bucket, `size, `chains, all
      ensures Valid() && bucketCount == old(bucketCount) && Sifted(all, match_) && Clean(i + 1, 0, match_) && Nodes(chains) <= all
      ensures erased == old(size) - size
    {
      hide Valid, Sifted, Clean, NodeAt;
      erased := 0;
      var prev: Node?<T> := null;
      HeadIs(i);
      var n := bucket[i];
      ghost var p: nat := 0;
      while n != null
        invariant Valid() && i < bucketCount == old(bucketCount) == |chains| && p <= |chains[i]|
        invariant n == NodeAt(chains[i], p) && prev == NodeAt(chains[i], p - 1)
        invariant Sifted(all, match_) && Clean(i, p, match_) && Nodes(chains) <= all
        invariant erased == old(size) - size
        decreases |chains[i]| - p
      {
        NodeAtIs(chains[i], p);
        PrevIsMine(i, p);
        var next, gone := SiftNode(i, n, prev, match_, p, all);
        if gone {
          erased := erased + 1;
        } else {
          prev := n;
          p := p + 1;
        }
        n := next;
      }
      NodeAtIs(chains[i], p);
      CleanChain(i, p, match_);
    }

    method SiftNode(i: nat, n: Node<T>, prev: Node?<T>, match_: T -> bool, ghost p: nat, ghost all: set<Node<T>>)
      returns (next: Node?<T>, gone: bool)
      requires Valid() && i < bucketCount && |chains| == bucketCount && p < |chains[i]| && n == chains[i][p] && prev == NodeAt(chains[i], p - 1)
      requires Sifted(all, match_) && Clean(i, p, match_) && Nodes(chains) <= all
      modifies `bucket, `size, `chains, prev
      ensures Valid() && bucketCount == old(bucketCount) == |chains| && Sifted(all, match_) && Nodes(chains) <= all
      ensures size == old(size) - if gone then 1 else 0
      ensures |chains[i]| == old(|chains[i]|) - if gone then 1 else 0
      ensures var q := if gone then p else p + 1;
        && Clean(i, q, match_) && q <= |chains[i]| && next == NodeAt(chains[i], q)
        && (if gone then prev else n) == NodeAt(chains[i], q - 1)
    {
      hide NodeAt, Nodes, Sound, Chain;
      NextIs(i, p);
      NodeAtIs(chains[i], p);
      next := n.next;
      gone := match_(n.key);
      if gone {
        CutAt(chains[i], p, p - 1);
        CutBefore(chains[i], p);
        EraseNode(i, n, prev, next, p);
      }
    }

    lemma StartSifting(match_: T -> bool)
      ensures Sifted(Nodes(chains), match_) && Clean(0, 0, match_)
    {
    }

    lemma HeadIs(i: nat)
      requires Valid() && i < bucketCount
      ensures |bucket| == |chains| == bucketCount && bucket[i] == NodeAt(chains[i], 0) && NodeAt(chains[i], -1) == null
    {
    }

    lemma CleanChain(i: nat, p: nat, match_: T -> bool)
      requires Clean(i, p, match_) && i < |chains| && p >= |chains[i]|
      ensures Clean(i + 1, 0, match_)
    {
    }

    lemma EndSifting(all: set<Node<T>>, match_: T -> bool)
      requires Valid() && Sifted(all, match_) && Clean(bucketCount, 0, match_)
      ensures Contents() == set k | k in Keys(all) && !match_(k)
    {
    }
  }

  // `size` is the number of keys.
  lemma SizeCountsKeys<T(!new)>(s: HashSet<T>)
    requires s.Valid()
    ensures s.size == |s.Contents()|
  {
    forall m, n | m in Nodes(s.chains) && n in Nodes(s.chains) && m.key == n.key ensures m == n {
      var i, j := WhereIs(s.chains, m);
      var k, l := WhereIs(s.chains, n);
      OnlyOnce(s.hash, s.equal, s.chains, i, j, k, l);
    }
    DistinctKeys(Nodes(s.chains));
  }

  lemma {:induction false} DistinctKeys<T>(ns: set<Node<T>>)
    requires forall m, n :: m in ns && n in ns && m.key == n.key ==> m == n
    ensures |Keys(ns)| == |ns|
  {
    if ns != {} {
      var n :| n in ns;
      DistinctKeys(ns - {n});
      assert Keys(ns) == Keys(ns - {n}) + {n.key};
    }
  }

  lemma CutBefore<T>(s: seq<Node<T>>, p: nat)
    requires p < |s|
    ensures NodeAt(s[..p] + s[p + 1..], p - 1) == NodeAt(s, p - 1)
  {
  }

  lemma EnoughRoom(count: nat, p: nat)
    requires Closest(count, p)
    ensures count <= p || p == LAST
  {
  }

  // A table without nodes has only empty chains.
  lemma EmptyChains<T>(chains: seq<seq<Node<T>>>)
    requires |Nodes(chains)| == 0
    ensures forall i :: 0 <= i < |chains| ==> chains[i] == []
  {
    forall i | 0 <= i < |chains| ensures chains[i] == [] {
      if chains[i] != [] {
        InNodes(chains, i, 0);
      }
    }
  }

  // The nodes before the j-th one of the index-th chain.
  ghost function Before<T>(chains: seq<seq<Node<T>>>, index: nat, j: nat): set<Node<T>>
    requires index < |chains| && j <= |chains[index]|
  {
    Nodes(chains[..index]) + set n | n in chains[index][..j]
  }

  lemma InBefore<T>(chains: seq<seq<Node<T>>>, index: nat, j: nat, m: Node<T>)
    requires index < |chains| && j <= |chains[index]|
    ensures m in Before(chains, index, j) <==> m in chains[index][..j] || exists i :: 0 <= i < index && m in chains[i]
  {
  }

  lemma BeforeGrows<T(!new)>(hash: T -> nat, equal: (T, T) -> bool, chains: seq<seq<Node<T>>>, index: nat, j: nat)
    requires Sound(hash, equal, chains) && index < |chains| && j < |chains[index]|
    ensures Before(chains, index, j + 1) == Before(chains, index, j) + {chains[index][j]}
    ensures forall m :: m in Before(chains, index, j) ==> !equal(chains[index][j].key, m.key)
  {
  }

  lemma AllBefore<T>(chains: seq<seq<Node<T>>>, index: nat)
    requires index < |chains| && forall k :: index < k < |chains| ==> chains[k] == []
    ensures Before(chains, index, |chains[index]|) == Nodes(chains)
  {
    forall m ensures m in Before(chains, index, |chains[index]|) <==> m in Nodes(chains) {
      InBefore(chains, index, |chains[index]|, m);
      assert chains[index][..|chains[index]|] == chains[index];
    }
  }

  lemma SkipEmpty<T>(chains: seq<seq<Node<T>>>, index: nat, i: nat)
    requires index < i < |chains| && forall k :: index < k < i ==> chains[k] == []
    ensures Before(chains, index, |chains[index]|) == Before(chains, i, 0)
  {
    forall m ensures m in Before(chains, index, |chains[index]|) <==> m in Before(chains, i, 0) {
      InBefore(chains, index, |chains[index]|, m);
      InBefore(chains, i, 0, m);
      assert chains[index][..|chains[index]|] == chains[index];
    }
  }

  lemma NothingBefore<T>(chains: seq<seq<Node<T>>>)
    requires forall i :: 0 <= i < |chains| ==> chains[i] == []
    ensures Nodes(chains) == {}
  {
  }

  lemma ConsAt<T>(n: Node<T>, s: seq<Node<T>>, j: int)
    requires j >= 0
    ensures NodeAt([n] + s, 0) == n && NodeAt([n] + s, j + 1) == NodeAt(s, j)
  {
  }

  // How the nodes of a chain follow each other once the p-th is cut out.
  lemma CutAt<T>(s: seq<Node<T>>, p: nat, j: int)
    requires p < |s| && -1 <= j <= |s| - 1
    ensures var t := s[..p] + s[p + 1..];
      && NodeAt(t, 0) == (if p == 0 then NodeAt(s, 1) else NodeAt(s, 0))
      && (0 <= j < |t| ==> t[j] == s[if j < p then j else j + 1])
      && NodeAt(t, j + 1) == NodeAt(s, if j < p - 1 then j + 1 else j + 2)
  {
  }
}
