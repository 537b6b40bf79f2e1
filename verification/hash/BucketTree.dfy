// The tree inside a bucket of the hash map: a red-black tree of linked nodes that only
// grows here. Its shape, contexts and links are those of the ordered set.
module BucketTree {
  import opened Options
  import opened Order
  import opened RedBlack
  import opened RedBlackLinks

  datatype Entry<K, V> = Entry(key: K, value: V)

  // `less` is a strict total order.
  ghost predicate Total<K(!new)>(less: (K, K) -> bool) {
    && (forall a, b :: less(a, b) ==> !less(b, a))
    && (forall a, b :: !less(a, b) && !less(b, a) ==> a == b)
    && (forall a, b, c :: less(a, b) && less(b, c) ==> less(a, c))
  }

  // In the order of the keys, equal keys allowed.
  ghost predicate Ascending<K, V>(less: (K, K) -> bool, s: seq<Entry<K, V>>) {
    forall i, j :: 0 <= i < j < |s| ==> !less(s[j].key, s[i].key)
  }

  ghost predicate Strict<K, V>(less: (K, K) -> bool, s: seq<Entry<K, V>>) {
    forall i, j :: 0 <= i < j < |s| ==> less(s[i].key, s[j].key)
  }

  ghost predicate HasKey<K, V>(s: seq<Entry<K, V>>, k: K) {
    exists e :: e in s && e.key == k
  }

  // The map that strictly ascending entries stand for.
  ghost function Content<K(!new), V>(less: (K, K) -> bool, s: seq<Entry<K, V>>): map<K, V>
    requires Total(less) && Strict(less, s)
  {
    map i | 0 <= i < |s| :: s[i].key := s[i].value
  }

  // Where an insertion puts a key: behind the keys that are not greater.
  ghost predicate Place<K, V>(less: (K, K) -> bool, a: seq<Entry<K, V>>, k: K, b: seq<Entry<K, V>>) {
    (forall e :: e in a ==> !less(k, e.key)) && (forall e :: e in b ==> less(k, e.key))
  }

  // Where a search for a key that is not there ends.
  ghost predicate Gap<K, V>(less: (K, K) -> bool, a: seq<Entry<K, V>>, k: K, b: seq<Entry<K, V>>) {
    (forall e :: e in a ==> less(e.key, k)) && (forall e :: e in b ==> less(k, e.key))
  }

  // ----- what the order says of a tree -----

  // No entry to the left of an entry is greater, none to its right is less.
  lemma Around<K(!new), V>(less: (K, K) -> bool, a: seq<Entry<K, V>>, x: Entry<K, V>, b: seq<Entry<K, V>>)
    requires Ascending(less, a + [x] + b)
    ensures forall e :: e in a ==> !less(x.key, e.key)
    ensures forall e :: e in b ==> !less(e.key, x.key)
  {
    var s := a + [x] + b;
    assert s[|a|] == x;
    forall e | e in a ensures !less(x.key, e.key) {
      var i :| 0 <= i < |a| && a[i] == e;
      assert s[i] == e;
    }
    forall e | e in b ensures !less(e.key, x.key) {
      var i :| 0 <= i < |b| && b[i] == e;
      assert s[|a| + 1 + i] == e;
    }
  }

  lemma RootAround<K(!new), V>(less: (K, K) -> bool, c: Ctx<Entry<K, V>>, t: Tree<Entry<K, V>>)
    requires Ascending(less, Keys(Plug(c, t))) && t.Bin?
    ensures forall e :: e in Keys(t.left) ==> !less(t.key.key, e.key)
    ensures forall e :: e in Keys(t.right) ==> !less(e.key, t.key.key)
  {
    hide Ascending, Plug, Keys, KeysBefore, KeysAfter;
    KeysAround(c, t);
    Around(less, KeysBefore(c) + Keys(t.left), t.key, Keys(t.right) + KeysAfter(c));
  }

  lemma PlaceDown<K(!new), V>(less: (K, K) -> bool, k: K, c: Ctx<Entry<K, V>>, t: Tree<Entry<K, V>>)
    requires Total(less) && Ascending(less, Keys(Plug(c, t))) && t.Bin? && Place(less, KeysBefore(c), k, KeysAfter(c))
    ensures var d := Down(c, t, if less(k, t.key.key) then Left else Right);
      Place(less, KeysBefore(d), k, KeysAfter(d))
    ensures Plug(Down(c, t, Left), t.left) == Plug(Down(c, t, Right), t.right) == Plug(c, t)
  {
    hide Ascending, Plug, Keys, KeysBefore, KeysAfter, Down;
    DownKeys(c, t);
    RootAround(less, c, t);
  }

  lemma GapDown<K(!new), V>(less: (K, K) -> bool, k: K, c: Ctx<Entry<K, V>>, t: Tree<Entry<K, V>>)
    requires Total(less) && Ascending(less, Keys(Plug(c, t))) && t.Bin? && Gap(less, KeysBefore(c), k, KeysAfter(c))
    requires k != t.key.key
    ensures var d := Down(c, t, if less(k, t.key.key) then Left else Right);
      Gap(less, KeysBefore(d), k, KeysAfter(d))
    ensures Plug(Down(c, t, Left), t.left) == Plug(Down(c, t, Right), t.right) == Plug(c, t)
  {
    hide Ascending, Plug, Keys, KeysBefore, KeysAfter, Down;
    DownKeys(c, t);
    RootAround(less, c, t);
  }

  lemma NothingAround<K, V>(less: (K, K) -> bool, k: K)
    ensures var c := Ctx<Entry<K, V>>.Top;
      Place(less, KeysBefore(c), k, KeysAfter(c)) && Gap(less, KeysBefore(c), k, KeysAfter(c))
  {
  }

  lemma GapMisses<K(!new), V>(less: (K, K) -> bool, k: K, c: Ctx<Entry<K, V>>)
    requires Total(less) && Gap(less, KeysBefore(c), k, KeysAfter(c))
    ensures !HasKey(Keys(Plug(c, Nil)), k)
  {
    PlugInOrder(c, Nil);
  }

  // ----- what an insertion does to the entries -----

  lemma PutAscending<K(!new), V>(less: (K, K) -> bool, a: seq<Entry<K, V>>, x: Entry<K, V>, b: seq<Entry<K, V>>)
    requires Total(less) && Ascending(less, a + b) && Place(less, a, x.key, b)
    ensures Ascending(less, a + [x] + b)
  {
    var s := a + [x] + b;
    forall i, j | 0 <= i < j < |s| ensures !less(s[j].key, s[i].key) {
      assert i < |a| ==> s[i] == a[i] == (a + b)[i] && s[i] in a;
      assert i > |a| ==> s[i] == b[i - |a| - 1] == (a + b)[i - 1];
      assert j < |a| ==> s[j] == (a + b)[j];
      assert j > |a| ==> s[j] == b[j - |a| - 1] == (a + b)[j - 1] && s[j] in b;
    }
  }

  // Strict order survives an insertion exactly if the key was not there.
  lemma StrictIffFresh<K(!new), V>(less: (K, K) -> bool, a: seq<Entry<K, V>>, x: Entry<K, V>, b: seq<Entry<K, V>>)
    requires Total(less) && Strict(less, a + b) && Place(less, a, x.key, b)
    ensures Strict(less, a + [x] + b) <==> !HasKey(a + b, x.key)
  {
    var s := a + [x] + b;
    assert s[|a|] == x;
    if HasKey(a + b, x.key) {
      var e :| e in a + b && e.key == x.key;
      var i :| 0 <= i < |a| && a[i] == e;
      assert s[i] == e;
    } else {
      forall i, j | 0 <= i < j < |s| ensures less(s[i].key, s[j].key) {
        assert i < |a| ==> s[i] == a[i] == (a + b)[i] && s[i] in a + b;
        assert i > |a| ==> s[i] == b[i - |a| - 1] == (a + b)[i - 1];
        assert j < |a| ==> s[j] == (a + b)[j];
        assert j > |a| ==> s[j] == b[j - |a| - 1] == (a + b)[j - 1] && s[j] in a + b;
      }
    }
  }

  // Looking a key up among strictly ascending entries.
  lemma ContentAt<K(!new), V>(less: (K, K) -> bool, s: seq<Entry<K, V>>, k: K)
    requires Total(less) && Strict(less, s)
    ensures k in Content(less, s) <==> HasKey(s, k)
    ensures forall e :: e in s && e.key == k ==> k in Content(less, s) && Content(less, s)[k] == e.value
  {
  }

  // What a search has to return, in terms of the map.
  lemma LookupInContent<K(!new), V>(less: (K, K) -> bool, s: seq<Entry<K, V>>, k: K, value: Option<V>)
    requires Total(less) && Strict(less, s)
    requires (value == None <==> !HasKey(s, k)) && (value.Some? ==> Entry(k, value.value) in s)
    ensures value == if k in Content(less, s) then Some(Content(less, s)[k]) else None
  {
  }

  // Taking out the i-th entry.
  lemma RemovedContent<K(!new), V>(less: (K, K) -> bool, s: seq<Entry<K, V>>, i: nat)
    requires Total(less) && Strict(less, s) && i < |s|
    ensures Strict(less, RemoveAt(s, i)) && Content(less, RemoveAt(s, i)) == Content(less, s) - {s[i].key}
  {
    RemovedStrict(less, s, i);
    hide Total, Strict, Content, RemoveAt, HasKey;
    var r := RemoveAt(s, i);
    var m, n := Content(less, r), Content(less, s) - {s[i].key};
    forall k ensures (k in m <==> k in n) && (k in m ==> m[k] == n[k]) {
      RemovedAt(less, s, i, k);
    }
  }

  lemma RemovedAt<K(!new), V>(less: (K, K) -> bool, s: seq<Entry<K, V>>, i: nat, k: K)
    requires Total(less) && Strict(less, s) && i < |s| && Strict(less, RemoveAt(s, i))
    ensures var m, n := Content(less, RemoveAt(s, i)), Content(less, s) - {s[i].key};
      (k in m <==> k in n) && (k in m ==> m[k] == n[k])
  {
    hide Total, Strict, Content, RemoveAt;
    ContentAt(less, RemoveAt(s, i), k);
    ContentAt(less, s, k);
    RemovedKeys(less, s, i, k);
    if HasKey(RemoveAt(s, i), k) {
      var e :| e in RemoveAt(s, i) && e.key == k;
      assert e in s;
    }
  }

  lemma RemovedStrict<K(!new), V>(less: (K, K) -> bool, s: seq<Entry<K, V>>, i: nat)
    requires Strict(less, s) && i < |s|
    ensures Strict(less, RemoveAt(s, i))
  {
    var r := RemoveAt(s, i);
    assert forall j :: 0 <= j < |r| ==> r[j] == s[if j < i then j else j + 1];
  }

  lemma RemovedKeys<K(!new), V>(less: (K, K) -> bool, s: seq<Entry<K, V>>, i: nat, k: K)
    requires Total(less) && Strict(less, s) && i < |s|
    ensures HasKey(RemoveAt(s, i), k) <==> HasKey(s, k) && k != s[i].key
    ensures forall e :: e in RemoveAt(s, i) ==> e in s
  {
    var r := RemoveAt(s, i);
    assert forall j :: 0 <= j < |r| ==> r[j] == s[if j < i then j else j + 1];
    if HasKey(s, k) && k != s[i].key {
      var j :| 0 <= j < |s| && s[j].key == k;
      assert r[if j < i then j else j - 1] == s[j];
    }
  }

  // An entry greater than all others goes to the end.
  lemma LastPlace<K(!new), V>(less: (K, K) -> bool, s: seq<Entry<K, V>>, i: nat, e: Entry<K, V>)
    requires Ascending(less, s + [e]) && i <= |s| && Place(less, s[..i], e.key, s[i..])
    ensures InsertAt(s, i, e) == s + [e]
  {
    if i < |s| {
      NotBefore(less, s, i, e);
    }
  }

  lemma NotBefore<K(!new), V>(less: (K, K) -> bool, s: seq<Entry<K, V>>, i: nat, e: Entry<K, V>)
    requires Ascending(less, s + [e]) && i < |s|
    ensures !Place(less, s[..i], e.key, s[i..])
  {
    var t := s + [e];
    assert s[i] in s[i..] && t[i] == s[i] && t[|s|] == e;
  }

  // All entries but the i-th, as far as the j-th.
  ghost function Others<E>(s: seq<E>, i: nat, j: nat): seq<E>
    requires i < |s| && j <= |s|
  {
    if j <= i then s[..j] else s[..i] + s[i + 1..j]
  }

  lemma NextOther<K(!new), V>(less: (K, K) -> bool, s: seq<Entry<K, V>>, i: nat, j: nat)
    requires Ascending(less, s) && i < |s| && j < |s|
    ensures j != i ==> Others(s, i, j + 1) == Others(s, i, j) + [s[j]] && Ascending(less, Others(s, i, j) + [s[j]])
    ensures j == i ==> Others(s, i, j + 1) == Others(s, i, j)
  {
  }

  lemma AllOthers<E>(s: seq<E>, i: nat)
    requires i < |s|
    ensures Others(s, i, |s|) == RemoveAt(s, i) && Others(s, i, 0) == []
  {
  }

  // A fresh key is added to the map.
  lemma FreshContent<K(!new), V>(less: (K, K) -> bool, a: seq<Entry<K, V>>, x: Entry<K, V>, b: seq<Entry<K, V>>)
    requires Total(less) && Strict(less, a + b) && Strict(less, a + [x] + b)
    ensures Content(less, a + [x] + b) == Content(less, a + b)[x.key := x.value]
  {
    hide Total, Strict, Content;
    var s := a + [x] + b;
    var m, n := Content(less, s), Content(less, a + b)[x.key := x.value];
    assert forall e :: e in s <==> e in a + b || e == x;
    forall k ensures (k in m <==> k in n) && (k in m ==> m[k] == n[k]) {
      ContentAt(less, s, k);
      ContentAt(less, a + b, k);
      if HasKey(s, k) && k != x.key {
        var e :| e in s && e.key == k;
        assert e in a + b;
      }
    }
  }

  // An insertion at the key's place, seen as a map: it is an update exactly if the key is
  // fresh; with a key that is there the entries stop being a map.
  lemma InsertedContent<K(!new), V>(less: (K, K) -> bool, s: seq<Entry<K, V>>, i: nat, x: Entry<K, V>)
    requires Total(less) && Strict(less, s) && i <= |s| && Place(less, s[..i], x.key, s[i..])
    ensures Strict(less, InsertAt(s, i, x)) <==> !HasKey(s, x.key)
    ensures !HasKey(s, x.key) ==> Content(less, InsertAt(s, i, x)) == Content(less, s)[x.key := x.value]
  {
    hide Total, Strict, Content, HasKey, Place;
    assert s[..i] + s[i..] == s;
    StrictIffFresh(less, s[..i], x, s[i..]);
    if !HasKey(s, x.key) {
      FreshContent(less, s[..i], x, s[i..]);
    }
  }

  // ----- balance -----

  ghost function Depth<E>(c: Ctx<E>): nat {
    match c
    case Top => 0
    case Hole(up, _, _, _, _, _) => 1 + Depth(up)
  }

  // The parent, black now, over the node and the red grandparent: the node's new context.
  ghost function Lifted<E>(c: Ctx<E>): Ctx<E>
    requires c.Hole? && c.up.Hole?
  {
    var g := c.up;
    Hole(g.up, g.side, c.node, Black, c.key, Join(g.side, c.sib, g.node, Red, g.key, g.sib))
  }

  lemma LiftedBalanced<E>(c: Ctx<E>, t: Tree<E>, h: nat)
    requires c.Hole? && c.color == Red && CtxBalanced(c, h) && RootColor(c.up.sib) == Black && c.side == c.up.side
    ensures CtxBalanced(Lifted(c), h) && Depth(Lifted(c)) < Depth(c)
    ensures Plug(Lifted(c), t) == Plug(c.up.up, Raised(c, t))
  {
  }

  class RBTree<K(!new, ==), V(!new)> {
    const less: (K, K) -> bool
    var root: Node?<Entry<K, V>>
    var size: nat
    ghost var tree: Tree<Entry<K, V>>
    ghost var repr: set<Node<Entry<K, V>>>

    ghost function Snapshot(): Heap<Entry<K, V>>
      reads `root, `repr, repr
    {
      Heap(root, map n | n in repr :: n.Fields())
    }

    ghost predicate At(c: Ctx<Entry<K, V>>, t: Tree<Entry<K, V>>)
      reads `root, `repr, repr
    {
      Focused(Snapshot(), c, t)
    }

    ghost predicate Valid()
      reads this, repr
    {
      && At(Top, tree) && RedBlackTree(tree)
      && Total(less) && Ascending(less, Keys(tree)) && size == |Keys(tree)|
    }

    // No two entries with the same key.
    ghost predicate Distinct()
      reads this, repr
    {
      Valid() && Strict(less, Keys(tree))
    }

    // The map that the entries stand for.
    ghost function Map(): map<K, V>
      requires Distinct()
      reads this, repr
    {
      Content(less, Keys(tree))
    }

    constructor (less: (K, K) -> bool)
      requires Total(less)
      ensures Distinct() && this.less == less && Keys(tree) == [] && repr == {} && Map() == map[]
    {
      this.less := less;
      root, size, tree, repr := null, 0, Nil, {};
      new;
      assert Balanced(tree, 0);
    }

    lemma Site(c: Ctx<Entry<K, V>>, t: Tree<Entry<K, V>>)
      requires At(c, t) && t.Bin?
      ensures t.node in repr && t.node.parent == Parent(c) && t.node.color == t.color && t.node.key == t.key
      ensures t.node.left == Ptr(t.left) && t.node.right == Ptr(t.right)
      ensures c.Hole? ==>
        && c.node in repr && c.node.color == c.color && c.node.parent == Parent(c.up)
        && (t.node == c.node.left <==> c.side == Left) && (t.node == c.node.right <==> c.side == Right)
        && Ptr(c.sib) == if c.side == Left then c.node.right else c.node.left
      ensures c.Hole? && c.sib.Bin? ==> c.sib.node in repr && c.sib.node.color == c.sib.color
    {
    }

    lemma AtUp(c: Ctx<Entry<K, V>>, t: Tree<Entry<K, V>>)
      requires c.Hole?
      ensures At(c, t) <==> At(c.up, Join(c.side, t, c.node, c.color, c.key, c.sib))
    {
      FocusUp(Snapshot(), c, t);
    }

    // ----- rotations -----

    method LeftRotate(x: Node<Entry<K, V>>)
      requires x.right != null && x.right != x && x.parent != x && x.parent != x.right
      requires x.right.left != null ==> x.right.left !in {x, x.right, x.parent}
      requires x.parent != null ==> (x.parent.left == x) != (x.parent.right == x)
      modifies `root, x, x.right, x.parent, x.right.left
      ensures x.Fields() == old(x.Fields()).(right := old(x.right.left), parent := old(x.right))
      ensures old(x.right).Fields() == old(x.right.Fields()).(left := x, parent := old(x.parent))
      ensures old(x.right.left) != null ==>
        old(x.right.left).Fields() == old(x.right.left.Fields()).(parent := x)
      ensures root == if old(x.parent) == null then old(x.right) else old(root)
      ensures old(x.parent) != null ==>
        old(x.parent).Fields() ==
        With(old(x.parent.Fields()), if old(x.parent.left) == x then Left else Right, old(x.right))
    {
      var y := x.right;
      x.right := y.left;
      if y.left != null {
        y.left.parent := x;
      }
      y.parent := x.parent;
      if x.parent == null {
        root := y;
      } else if x == x.parent.left {
        x.parent.left := y;
      } else {
        x.parent.right := y;
      }
      y.left := x;
      x.parent := y;
    }

    method RightRotate(x: Node<Entry<K, V>>)
      requires x.left != null && x.left != x && x.parent != x && x.parent != x.left
      requires x.left.right != null ==> x.left.right !in {x, x.left, x.parent}
      requires x.parent != null ==> (x.parent.left == x) != (x.parent.right == x)
      modifies `root, x, x.left, x.parent, x.left.right
      ensures x.Fields() == old(x.Fields()).(left := old(x.left.right), parent := old(x.left))
      ensures old(x.left).Fields() == old(x.left.Fields()).(right := x, parent := old(x.parent))
      ensures old(x.left.right) != null ==>
        old(x.left.right).Fields() == old(x.left.right.Fields()).(parent := x)
      ensures root == if old(x.parent) == null then old(x.left) else old(root)
      ensures old(x.parent) != null ==>
        old(x.parent).Fields() ==
        With(old(x.parent.Fields()), if old(x.parent.left) == x then Left else Right, old(x.left))
    {
      var y := x.left;
      x.left := y.right;
      if y.right != null {
        y.right.parent := x;
      }
      y.parent := x.parent;
      if x.parent == null {
        root := y;
      } else if x == x.parent.right {
        x.parent.right := y;
      } else {
        x.parent.left := y;
      }
      y.right := x;
      x.parent := y;
    }

    // A rotation towards `s`, at a focus.
    method Rotate(s: Side, x: Node<Entry<K, V>>, ghost c: Ctx<Entry<K, V>>, ghost t: Tree<Entry<K, V>>)
      requires At(c, t) && t.Bin? && t.node == x && Child(t, Other(s)).Bin?
      modifies `root, repr
      ensures At(c, Rotated(s, t))
    {
      hide Focused, Distinct, CtxDistinct, Linked, CtxLinked, Nodes, CtxNodes;
      ghost var h := Snapshot();
      RotationSite(h, c, s, t);
      if s == Left {
        LeftRotate(x);
      } else {
        RightRotate(x);
      }
      RotatedFocused(h, Snapshot(), c, s, t);
    }

    method Paint(x: Node<Entry<K, V>>, col: Color, ghost c: Ctx<Entry<K, V>>, ghost t: Tree<Entry<K, V>>)
      requires At(c, t) && t.Bin? && t.node == x
      modifies repr
      ensures At(c, t.(color := col))
    {
      hide Distinct, CtxDistinct, Linked, CtxLinked, Nodes, CtxNodes;
      ghost var h := Snapshot();
      Site(c, t);
      x.color := col;
      Retouched(h, Snapshot(), c, t, t.key, col);
    }

    // ----- insertion -----

    // Before each round: a red node, whose tree is correct in itself, in a balanced
    // context; only the node and its parent may both be red.
    ghost predicate Unfixed(z: Node<Entry<K, V>>, c: Ctx<Entry<K, V>>, t: Tree<Entry<K, V>>, h: nat)
      reads this, repr
    {
      At(c, t) && t.Bin? && t.node == z && t.color == Red && Balanced(t, h) && CtxBalanced(c, h)
    }

    ghost predicate SameEntries(c: Ctx<Entry<K, V>>, t: Tree<Entry<K, V>>, d: Ctx<Entry<K, V>>, u: Tree<Entry<K, V>>)
    {
      Spine(Plug(d, u)) == Spine(Plug(c, t)) && Keys(Plug(d, u)) == Keys(Plug(c, t))
    }

    // The three assignments of the red-uncle case; the grandparent is looked at next.
    method Recolor(parent: Node<Entry<K, V>>, y: Node<Entry<K, V>>, grand: Node<Entry<K, V>>,
        ghost c: Ctx<Entry<K, V>>, ghost t: Tree<Entry<K, V>>)
      requires At(c, t) && t.Bin? && c.Hole? && c.up.Hole? && c.up.sib.Bin?
      requires parent == c.node && y == c.up.sib.node && grand == c.up.node
      modifies repr
      ensures At(c.up.up, Recolored(c, t))
    {
      hide At;
      ghost var g, j := c.up, Join(c.side, t, c.node, c.color, c.key, c.sib);
      AtUp(c, t);
      Paint(parent, Black, g, j);
      j := j.(color := Black);
      ghost var uncle := Hole(g.up, Other(g.side), g.node, g.color, g.key, j);
      AtUp(g, j);
      AtUp(uncle, g.sib);
      Paint(y, Black, uncle, g.sib);
      AtUp(uncle, g.sib.(color := Black));
      Paint(grand, Red, g.up, Join(g.side, j, g.node, g.color, g.key, g.sib.(color := Black)));
    }

    // The parent of an outer grandchild turns black and is rotated above the grandparent.
    method Lift(s: Side, parent: Node<Entry<K, V>>, grand: Node<Entry<K, V>>,
        ghost c: Ctx<Entry<K, V>>, ghost t: Tree<Entry<K, V>>)
      requires At(c, t) && t.Bin? && c.Hole? && c.up.Hole? && c.side == c.up.side == s
      requires parent == c.node && grand == c.up.node
      modifies `root, repr
      ensures At(Lifted(c), t)
    {
      hide At;
      ghost var g, j := c.up, Join(c.side, t, c.node, c.color, c.key, c.sib);
      AtUp(c, t);
      Paint(parent, Black, g, j);
      j := j.(color := Black);
      AtUp(g, j);
      ghost var k := Join(g.side, j, g.node, g.color, g.key, g.sib);
      Paint(grand, Red, g.up, k);
      Rotate(Other(s), grand, g.up, k.(color := Red));
      AtUp(Lifted(c), t);
    }

    // One round below a red parent that is its own parent's child on side `s`: the two
    // mirrored branches of the loop body at once.
    method FixupStep(s: Side, z: Node<Entry<K, V>>, ghost c: Ctx<Entry<K, V>>, ghost t: Tree<Entry<K, V>>, ghost h: nat)
      returns (z': Node<Entry<K, V>>, ghost c': Ctx<Entry<K, V>>, ghost t': Tree<Entry<K, V>>, ghost h': nat)
      requires Unfixed(z, c, t, h) && c.Hole? && c.color == Red && c.up.Hole? && c.up.side == s
      modifies `root, repr
      ensures Unfixed(z', c', t', h') && Depth(c') < Depth(c) && SameEntries(c, t, c', t')
    {
      hide At, Plug, Spine, Keys;
      ghost var g, j := c.up, Join(c.side, t, c.node, c.color, c.key, c.sib);
      Site(c, t);
      AtUp(c, t);
      Site(g, j);
      var grand := z.parent.parent;
      var y := if s == Left then grand.right else grand.left;
      if y != null && y.color == Red {
        Recolor(z.parent, y, grand, c, t);
        RecoloredBalanced(c, t, h);
        z', c', t', h' := grand, g.up, Recolored(c, t), h + 1;
      } else {
        z', c', t', h' := z, c, t, h;
        if z == if s == Left then z.parent.right else z.parent.left {
          z' := z.parent;
          Rotate(s, z', g, j);
          OuterBalanced(c, t, h);
          OuterInOrder(c, t);
          c', t' := OuterCtx(c, t), OuterTree(c, t);
          AtUp(c', t');
          Site(c', t');
          AtUp(c', t');
          Site(c'.up, Join(c'.side, t', c'.node, c'.color, c'.key, c'.sib));
        }
        LiftedBalanced(c', t', h);
        RaisedInOrder(c', t');
        Lift(s, z'.parent, z'.parent.parent, c', t');
        c' := Lifted(c');
      }
    }

    method InsertFixup(z0: Node<Entry<K, V>>, ghost c0: Ctx<Entry<K, V>>, ghost t0: Tree<Entry<K, V>>, ghost h0: nat)
      returns (ghost u: Tree<Entry<K, V>>)
      requires Unfixed(z0, c0, t0, h0)
      modifies `root, repr
      ensures At(Top, u) && RedBlackTree(u) && SameEntries(c0, t0, Top, u)
    {
      hide At, Plug, Spine, Keys;
      var z := z0;
      ghost var c, t, h := c0, t0, h0;
      Site(c, t);
      while z.parent != null && z.parent.color == Red
        invariant Unfixed(z, c, t, h) && SameEntries(c0, t0, c, t)
        decreases Depth(c)
      {
        Site(c, t);
        AtUp(c, t);
        Site(c.up, Join(c.side, t, c.node, c.color, c.key, c.sib));
        if z.parent == z.parent.parent.left {
          z, c, t, h := FixupStep(Left, z, c, t, h);
        } else {
          z, c, t, h := FixupStep(Right, z, c, t, h);
        }
      }
      Site(c, t);
      u := BlackenRoot(c, t, h);
    }

    // Ends the repair. Only a root without a parent can be red.
    method BlackenRoot(ghost c: Ctx<Entry<K, V>>, ghost t: Tree<Entry<K, V>>, ghost h: nat) returns (ghost u: Tree<Entry<K, V>>)
      requires At(c, t) && t.Bin? && t.color == Red && Balanced(t, h) && CtxBalanced(c, h) && (c.Hole? ==> TakesRed(c))
      modifies repr
      ensures At(Top, u) && RedBlackTree(u) && SameEntries(c, t, Top, u)
    {
      hide At, Spine, Keys;
      u := Plug(c, t);
      AtTop(c, t);
      PlugBin(c, t);
      if c.Hole? {
        PlugBalanced(c, t, h);
      } else {
        assert Balanced(u.(color := Black), h + 1);
      }
      TopSite(u);
      Paint(root, Black, Top, u);
      Recoloring(u, Black);
      u := u.(color := Black);
    }

    lemma AtTop(c: Ctx<Entry<K, V>>, t: Tree<Entry<K, V>>)
      ensures At(c, t) <==> At(Top, Plug(c, t))
    {
      FocusTop(Snapshot(), c, t);
    }

    lemma TopSite(t: Tree<Entry<K, V>>)
      requires At(Top, t)
      ensures root == Ptr(t)
    {
    }

    // Hangs the new node under `y`, or makes it the root.
    method Attach(z: Node<Entry<K, V>>, y: Node?<Entry<K, V>>, ghost c: Ctx<Entry<K, V>>)
      requires At(c, Nil) && y == Parent(c) && (c.Hole? ==> (less(z.key.key, c.key.key) <==> c.side == Left))
      requires z !in repr && z.Fields() == Cell(null, null, null, z.key, Red)
      modifies `root, `repr, y, z
      ensures repr == old(repr) + {z} && z.key == old(z.key)
      ensures At(c, Bin(Nil, z, Red, z.key, Nil))
    {
      hide Distinct, CtxDistinct, Linked, Nodes, CtxNodes;
      ghost var h := Snapshot();
      Neighbours(h, c, Nil);
      assert c.Hole? ==> h.cells[c.node] == c.node.Fields();
      z.parent := y;
      if y == null {
        root := z;
      } else if less(z.key.key, y.key.key) {
        y.left := z;
      } else {
        y.right := z;
      }
      repr := repr + {z};
      Attached(h, Snapshot(), c, z, z.key);
    }

    // The descent: the node under which the key goes, and the place of the key.
    method Descend(key: K) returns (y: Node?<Entry<K, V>>, ghost c: Ctx<Entry<K, V>>)
      requires Valid()
      ensures At(c, Nil) && Plug(c, Nil) == tree && Place(less, KeysBefore(c), key, KeysAfter(c))
      ensures y == Parent(c) && (c.Hole? ==> y in repr && (less(key, c.key.key) <==> c.side == Left))
    {
      hide At, Total, Ascending, KeysBefore, KeysAfter, Plug, Keys;
      y := null;
      var x := root;
      c := Top;
      ghost var t := tree;
      NothingAround<K, V>(less, key);
      PlugTop(tree);
      TopSite(tree);
      while x != null
        invariant x == Ptr(t) && At(c, t) && Plug(c, t) == tree && Place(less, KeysBefore(c), key, KeysAfter(c))
        invariant y == Parent(c) && (c.Hole? ==> y in repr && (less(key, c.key.key) <==> c.side == Left))
        decreases t
      {
        Site(c, t);
        PlaceDown(less, key, c, t);
        y := x;
        if less(key, x.key.key) {
          x := x.left;
          AtUp(Down(c, t, Left), t.left);
          c, t := Down(c, t, Left), t.left;
        } else {
          x := x.right;
          AtUp(Down(c, t, Right), t.right);
          c, t := Down(c, t, Right), t.right;
        }
      }
    }

    // Adds an entry behind those with keys that are not greater, and restores the balance.
    method Insert(key: K, value: V) returns (ghost i: nat)
      requires Valid()
      modifies this, repr
      ensures Valid() && fresh(repr - old(repr))
      ensures i <= |old(Keys(tree))| && Keys(tree) == InsertAt(old(Keys(tree)), i, Entry(key, value))
      ensures Place(less, old(Keys(tree))[..i], key, old(Keys(tree))[i..])
      ensures old(Distinct()) ==> (Distinct() <==> key !in old(Map()))
      ensures old(Distinct()) && key !in old(Map()) ==> Map() == old(Map())[key := value]
    {
      hide At, Total, Ascending, Strict, HasKey, Content, Place, InsertAt, Spine, Keys, KeysBefore, KeysAfter, CtxBalanced;
      ghost var s := Keys(tree);
      var z := new Node(Entry(key, value), Red);
      var y;
      ghost var c;
      y, c := Descend(key);
      ghost var t := Bin(Nil, z, Red, z.key, Nil);
      Attach(z, y, c);
      ghost var h := CtxIsBalanced(c, Nil);
      ghost var u := InsertFixup(z, c, t, h);
      PutInOrder(less, c, z, Entry(key, value), u);
      i := |KeysBefore(c)|;
      size := size + 1;
      tree := u;
      if Strict(less, s) {
        InsertedContent(less, s, i, Entry(key, value));
        ContentAt(less, s, key);
      }
    }

    method Find(key: K) returns (value: Option<V>)
      requires Valid()
      ensures value == None <==> !HasKey(Keys(tree), key)
      ensures value.Some? ==> Entry(key, value.value) in Keys(tree)
      ensures Distinct() ==> value == if key in Map() then Some(Map()[key]) else None
    {
      value := Search(key);
      if Distinct() {
        LookupInContent(less, Keys(tree), key, value);
      }
    }

    method Search(key: K) returns (value: Option<V>)
      requires Valid()
      ensures value == None <==> !HasKey(Keys(tree), key)
      ensures value.Some? ==> Entry(key, value.value) in Keys(tree)
    {
      hide At, Total, Ascending, KeysBefore, KeysAfter, Plug, Keys;
      var x := root;
      ghost var c, t := Ctx<Entry<K, V>>.Top, tree;
      NothingAround<K, V>(less, key);
      PlugTop(tree);
      TopSite(tree);
      while x != null
        invariant x == Ptr(t) && At(c, t) && Plug(c, t) == tree && Gap(less, KeysBefore(c), key, KeysAfter(c))
        decreases t
      {
        Site(c, t);
        if key == x.key.key {
          KeysAround(c, t);
          return Some(x.key.value);
        }
        GapDown(less, key, c, t);
        if less(key, x.key.key) {
          x := x.left;
          AtUp(Down(c, t, Left), t.left);
          c, t := Down(c, t, Left), t.left;
        } else {
          x := x.right;
          AtUp(Down(c, t, Right), t.right);
          c, t := Down(c, t, Right), t.right;
        }
      }
      GapMisses(less, key, c);
      value := None;
    }

    // Removal, by its contract only: the tree is built anew from the other entries.
    method Remove(key: K) returns (removed: bool)
      requires Distinct()
      modifies this, repr
      ensures Distinct() && fresh(repr - old(repr))
      ensures removed == (key in old(Map())) && Map() == old(Map()) - {key}
    {
      hide Valid, Total, Ascending, Strict, HasKey, Content, Keys, InsertAt, RemoveAt, Place, Others;
      TotalOrder();
      var entries := InorderTraversal();
      ContentAt(less, entries, key);
      var i := IndexOf(entries, key);
      removed := i < |entries|;
      if removed {
        RemovedContent(less, entries, i);
        Rebuild(entries, i);
      }
    }

    lemma TotalOrder()
      requires Valid()
      ensures Total(less) && Ascending(less, Keys(tree))
    {
    }

    static method IndexOf(entries: seq<Entry<K, V>>, key: K) returns (i: nat)
      ensures i <= |entries| && (i < |entries| ==> entries[i].key == key) && (i == |entries| <==> !HasKey(entries, key))
    {
      i := 0;
      while i < |entries| && entries[i].key != key
        invariant i <= |entries| && forall j :: 0 <= j < i ==> entries[j].key != key
      {
        i := i + 1;
      }
    }

    method Rebuild(entries: seq<Entry<K, V>>, i: nat)
      requires Valid() && entries == Keys(tree) && i < |entries|
      modifies this, repr
      ensures Valid() && Keys(tree) == RemoveAt(entries, i) && fresh(repr)
    {
      hide Valid, Total, Ascending, Strict, HasKey, Content, Keys, InsertAt, RemoveAt, Place, Others;
      TotalOrder();
      AllOthers(entries, i);
      Reset();
      for j := 0 to |entries|
        invariant Valid() && fresh(repr) && Keys(tree) == Others(entries, i, j)
      {
        NextOther(less, entries, i, j);
        if j != i {
          ghost var s := Keys(tree);
          ghost var at := Insert(entries[j].key, entries[j].value);
          LastPlace(less, s, at, entries[j]);
        }
      }
    }

    method Reset()
      requires Total(less)
      modifies this
      ensures Valid() && Keys(tree) == [] && repr == {}
    {
      root, size, tree, repr := null, 0, Nil, {};
      assert Balanced(tree, 0);
    }

    // The entries in the order in which the traversal hands them over.
    method InorderTraversal() returns (visited: seq<Entry<K, V>>)
      requires Valid()
      ensures visited == Keys(tree)
    {
      TopSite(tree);
      visited := TraverseFrom(root, [], Top, tree);
    }

    method TraverseFrom(node: Node?<Entry<K, V>>, before: seq<Entry<K, V>>, ghost c: Ctx<Entry<K, V>>, ghost t: Tree<Entry<K, V>>)
      returns (visited: seq<Entry<K, V>>)
      requires At(c, t) && node == Ptr(t)
      ensures visited == before + Keys(t)
      decreases t
    {
      hide At;
      visited := before;
      if node != null {
        Site(c, t);
        AtUp(Down(c, t, Left), t.left);
        AtUp(Down(c, t, Right), t.right);
        visited := TraverseFrom(node.left, visited, Down(c, t, Left), t.left);
        visited := visited + [node.key];
        visited := TraverseFrom(node.right, visited, Down(c, t, Right), t.right);
      }
    }
  }

  lemma {:induction false} PlugBin<E>(c: Ctx<E>, t: Tree<E>)
    requires t.Bin?
    ensures Plug(c, t).Bin?
  {
    match c
    case Top =>
    case Hole(up, s, x, col, k, sib) => PlugBin(up, Join(s, t, x, col, k, sib));
  }

  lemma PlugTop<E>(t: Tree<E>)
    ensures Plug(Top, t) == t
  {
  }

  lemma Recoloring<E>(t: Tree<E>, col: Color)
    requires t.Bin?
    ensures Spine(t.(color := col)) == Spine(t) && Keys(t.(color := col)) == Keys(t)
  {
  }

  // The new leaf's entry in the order of the whole tree.
  lemma PutInOrder<K(!new), V>(less: (K, K) -> bool, c: Ctx<Entry<K, V>>, z: Node<Entry<K, V>>, e: Entry<K, V>, u: Tree<Entry<K, V>>)
    requires Total(less) && Ascending(less, Keys(Plug(c, Nil))) && Place(less, KeysBefore(c), e.key, KeysAfter(c))
    requires Keys(u) == Keys(Plug(c, Bin(Nil, z, Red, e, Nil)))
    ensures Ascending(less, Keys(u)) && |Keys(u)| == |Keys(Plug(c, Nil))| + 1
    ensures var s, i := Keys(Plug(c, Nil)), |KeysBefore(c)|;
      i <= |s| && s[..i] == KeysBefore(c) && s[i..] == KeysAfter(c) && Keys(u) == InsertAt(s, i, e)
  {
    hide Keys, SpineBefore, SpineAfter, KeysBefore, KeysAfter, Total, Ascending;
    PlugInOrder(c, Nil);
    PlugInOrder(c, Bin(Nil, z, Red, e, Nil));
    LeafInOrder(z, Red, e);
    assert KeysBefore(c) + [] == KeysBefore(c);
    InsertAtSeam(KeysBefore(c), KeysAfter(c), e);
    PutAscending(less, KeysBefore(c), e, KeysAfter(c));
  }
}
