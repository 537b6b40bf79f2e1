// The ordered set: a red-black tree of linked nodes, updated in place.
module OrderedSet {
  import opened Filter
  import opened Order
  import opened RedBlack
  import opened RedBlackLinks

  class Set<K(!new)> {
    const compare: (K, K) -> int
    var root: Node?<K>
    var size: nat
    ghost var tree: Tree<K>
    ghost var repr: set<Node<K>>

    ghost function Snapshot(): Heap<K>
      reads `root, `repr, repr
    {
      Heap(root, map n | n in repr :: n.Fields())
    }

    ghost predicate At(c: Ctx<K>, t: Tree<K>)
      reads `root, `repr, repr
    {
      Focused(Snapshot(), c, t)
    }

    ghost predicate Valid()
      reads this, repr
    {
      && At(Top, tree) && RedBlackTree(tree)
      && IsOrder(compare) && Sorted(compare, Keys(tree)) && size == |Keys(tree)|
    }

    constructor (compare: (K, K) -> int)
      requires IsOrder(compare)
      ensures Valid() && this.compare == compare && Keys(tree) == [] && repr == {}
    {
      this.compare := compare;
      root, size, tree, repr := null, 0, Nil, {};
      new;
      assert Balanced(tree, 0);
    }

    // A missing node counts as black.
    static function IsRed(n: Node?<K>): bool
      reads n
    {
      n != null && n.color == Red
    }

    static function Sibling(node: Node<K>): Node?<K>
      requires node.parent != null
      reads node, node.parent
    {
      if node == node.parent.left then node.parent.right else node.parent.left
    }

    // ----- the neighbourhood of a focus, in the heap -----

    lemma Site(c: Ctx<K>, t: Tree<K>)
      requires At(c, t) && t.Bin?
      ensures t.node in repr && t.node.parent == Parent(c) && t.node.color == t.color && t.node.key == t.key
      ensures t.node.left == Ptr(t.left) && t.node.right == Ptr(t.right)
      ensures IsRed(t.node.left) == (RootColor(t.left) == Red) && IsRed(t.node.right) == (RootColor(t.right) == Red)
      ensures t.left.Bin? ==> t.left.node in repr
      ensures t.right.Bin? ==> t.right.node in repr
      ensures c.Hole? ==>
        && c.node in repr && c.node.color == c.color && c.node.parent == Parent(c.up)
        && (t.node == c.node.left <==> c.side == Left) && (t.node == c.node.right <==> c.side == Right)
        && Sibling(t.node) == Ptr(c.sib) && IsRed(Sibling(t.node)) == (RootColor(c.sib) == Red)
      ensures c.Hole? && c.sib.Bin? ==>
        && c.sib.node in repr && c.sib.node.left == Ptr(c.sib.left) && c.sib.node.right == Ptr(c.sib.right)
        && IsRed(c.sib.node.left) == (RootColor(c.sib.left) == Red)
        && IsRed(c.sib.node.right) == (RootColor(c.sib.right) == Red)
    {
      hide Focused;
      var h := Snapshot();
      Neighbours(h, c, t);
      assert forall n :: n in repr ==> h.cells[n] == n.Fields();
    }

    lemma AtUp(c: Ctx<K>, t: Tree<K>)
      requires c.Hole?
      ensures At(c, t) <==> At(c.up, Join(c.side, t, c.node, c.color, c.key, c.sib))
    {
      FocusUp(Snapshot(), c, t);
    }

    lemma AtTop(c: Ctx<K>, t: Tree<K>)
      ensures At(c, t) <==> At(Top, Plug(c, t))
    {
      FocusTop(Snapshot(), c, t);
    }

    lemma KeyOf(c: Ctx<K>, t: Tree<K>, i: nat)
      requires At(c, t) && i < |Spine(t)|
      ensures i < |Keys(t)| && Spine(t)[i] in repr && Spine(t)[i].key == Keys(t)[i]
    {
      SpineKeysLength(t);
      SpineLinked(Snapshot().cells, t, Parent(c), i);
      assert forall n :: n in repr ==> Snapshot().cells[n] == n.Fields();
    }

    // ----- pointer surgery -----

    method Replace(a: Node<K>, b: Node?<K>)
      requires a.parent != null ==> (a.parent.left == a) != (a.parent.right == a)
      requires b != null ==> b != a && b != a.parent
      requires a.parent != a
      modifies `root, a.parent, b
      ensures a.parent == null ==> root == b
      ensures a.parent != null ==>
        && root == old(root)
        && a.parent.Fields() == With(old(a.parent.Fields()), if old(a.parent.left) == a then Left else Right, b)
      ensures b != null ==> b.Fields() == old(b.Fields()).(parent := a.parent)
    {
      if a.parent != null {
        if a == a.parent.left {
          a.parent.left := b;
        } else {
          a.parent.right := b;
        }
      } else {
        root := b;
      }
      if b != null {
        b.parent := a.parent;
      }
    }

    method RotateLeft(node: Node<K>)
      requires node.right != null && node.right != node && node.parent != node && node.parent != node.right
      requires node.right.left != null ==> node.right.left !in {node, node.right, node.parent}
      requires node.parent != null ==> (node.parent.left == node) != (node.parent.right == node)
      modifies `root, node, node.right, node.parent, node.right.left
      ensures node.Fields() == old(node.Fields()).(right := old(node.right.left), parent := old(node.right))
      ensures old(node.right).Fields() == old(node.right.Fields()).(left := node, parent := old(node.parent))
      ensures old(node.right.left) != null ==>
        old(node.right.left).Fields() == old(node.right.left.Fields()).(parent := node)
      ensures root == if old(node.parent) == null then old(node.right) else old(root)
      ensures old(node.parent) != null ==>
        old(node.parent).Fields() ==
        With(old(node.parent.Fields()), if old(node.parent.left) == node then Left else Right, old(node.right))
    {
      var r := node.right;
      Replace(node, r);
      node.right := r.left;
      if r.left != null {
        r.left.parent := node;
      }
      r.left := node;
      node.parent := r;
    }

    method RotateRight(node: Node<K>)
      requires node.left != null && node.left != node && node.parent != node && node.parent != node.left
      requires node.left.right != null ==> node.left.right !in {node, node.left, node.parent}
      requires node.parent != null ==> (node.parent.left == node) != (node.parent.right == node)
      modifies `root, node, node.left, node.parent, node.left.right
      ensures node.Fields() == old(node.Fields()).(left := old(node.left.right), parent := old(node.left))
      ensures old(node.left).Fields() == old(node.left.Fields()).(right := node, parent := old(node.parent))
      ensures old(node.left.right) != null ==>
        old(node.left.right).Fields() == old(node.left.right.Fields()).(parent := node)
      ensures root == if old(node.parent) == null then old(node.left) else old(root)
      ensures old(node.parent) != null ==>
        old(node.parent).Fields() ==
        With(old(node.parent.Fields()), if old(node.parent.left) == node then Left else Right, old(node.left))
    {
      var l := node.left;
      Replace(node, l);
      node.left := l.right;
      if l.right != null {
        l.right.parent := node;
      }
      l.right := node;
      node.parent := l;
    }

    // A rotation towards `s`, at a focus.
    method Rotate(s: Side, node: Node<K>, ghost c: Ctx<K>, ghost t: Tree<K>)
      requires At(c, t) && t.Bin? && t.node == node && Child(t, Other(s)).Bin?
      modifies `root, repr
      ensures At(c, Rotated(s, t))
    {
      hide Focused, Distinct, CtxDistinct, Linked, CtxLinked, Nodes, CtxNodes;
      ghost var h := Snapshot();
      RotationSite(h, c, s, t);
      if s == Left {
        RotateLeft(node);
      } else {
        RotateRight(node);
      }
      RotatedFocused(h, Snapshot(), c, s, t);
    }

    method Paint(node: Node<K>, col: Color, ghost c: Ctx<K>, ghost t: Tree<K>)
      requires At(c, t) && t.Bin? && t.node == node
      modifies repr
      ensures At(c, t.(color := col))
    {
      hide Distinct, CtxDistinct, Linked, CtxLinked, Nodes, CtxNodes;
      ghost var h := Snapshot();
      Site(c, t);
      node.color := col;
      Retouched(h, Snapshot(), c, t, t.key, col);
    }

    // ----- rebalancing after insertion -----

    // Before each case: the focus is a red tree, correct in itself, in a balanced context;
    // only its root and its parent may both be red.
    ghost predicate InsertSite(node: Node<K>, c: Ctx<K>, t: Tree<K>, h: nat)
      reads this, repr
    {
      At(c, t) && t.Bin? && t.node == node && t.color == Red && Balanced(t, h) && CtxBalanced(c, h)
    }

    ghost predicate InsertDone(c: Ctx<K>, t: Tree<K>, u: Tree<K>)
      reads this, repr
    {
      At(Top, u) && RedBlackTree(u) && Spine(u) == Spine(Plug(c, t)) && Keys(u) == Keys(Plug(c, t))
    }

    method Insert1(node: Node<K>, ghost c: Ctx<K>, ghost t: Tree<K>, ghost h: nat) returns (ghost u: Tree<K>)
      requires InsertSite(node, c, t, h)
      modifies `root, repr
      ensures InsertDone(c, t, u)
      decreases c, 5
    {
      Site(c, t);
      if node.parent != null {
        u := Insert2(node, c, t, h);
      } else {
        Paint(node, Black, c, t);
        u := t.(color := Black);
        assert Balanced(u, h + 1);
      }
    }

    method Insert2(node: Node<K>, ghost c: Ctx<K>, ghost t: Tree<K>, ghost h: nat) returns (ghost u: Tree<K>)
      requires InsertSite(node, c, t, h) && c.Hole?
      modifies `root, repr
      ensures InsertDone(c, t, u)
      decreases c, 4
    {
      Site(c, t);
      if !IsRed(node.parent) {
        u := Plug(c, t);
        FocusTop(Snapshot(), c, t);
        PlugBalanced(c, t, h);
      } else {
        u := Insert3(node, c, t, h);
      }
    }

    method Insert3(node: Node<K>, ghost c: Ctx<K>, ghost t: Tree<K>, ghost h: nat) returns (ghost u: Tree<K>)
      requires InsertSite(node, c, t, h) && c.Hole? && c.color == Red
      modifies `root, repr
      ensures InsertDone(c, t, u)
      decreases c, 3
    {
      hide At, Plug, Spine, Keys;
      ghost var g, j := c.up, Join(c.side, t, c.node, Red, c.key, c.sib);
      Site(c, t);
      AtUp(c, t);
      Site(g, j);
      if IsRed(Sibling(node.parent)) {
        var grandfather := node.parent.parent;
        Recolor(node, c, t);
        RecoloredBalanced(c, t, h);
        u := Insert1(grandfather, g.up, Recolored(c, t), h + 1);
      } else {
        u := Insert4(node, c, t, h);
      }
    }

    // The three assignments of the red-uncle case.
    method Recolor(node: Node<K>, ghost c: Ctx<K>, ghost t: Tree<K>)
      requires At(c, t) && t.Bin? && t.node == node && c.Hole? && c.up.Hole? && c.up.sib.Bin?
      modifies repr
      ensures At(c.up.up, Recolored(c, t))
    {
      hide At;
      ghost var g, j := c.up, Join(c.side, t, c.node, c.color, c.key, c.sib);
      Site(c, t);
      AtUp(c, t);
      Site(g, j);
      var parent := node.parent;
      Paint(parent, Black, g, j);
      j := j.(color := Black);
      Site(g, j);
      ghost var uncle := Hole(g.up, Other(g.side), g.node, g.color, g.key, j);
      AtUp(g, j);
      AtUp(uncle, g.sib);
      Paint(Sibling(parent), Black, uncle, g.sib);
      AtUp(uncle, g.sib.(color := Black));
      ghost var k := Join(g.side, j, g.node, g.color, g.key, g.sib.(color := Black));
      ghost var f := Hole(g.up, g.side, g.node, g.color, g.key, g.sib.(color := Black));
      AtUp(f, j);
      Site(f, j);
      Paint(parent.parent, Red, g.up, k);
    }

    method Insert4(node: Node<K>, ghost c: Ctx<K>, ghost t: Tree<K>, ghost h: nat) returns (ghost u: Tree<K>)
      requires InsertSite(node, c, t, h) && c.Hole? && c.color == Red && RootColor(c.up.sib) == Black
      modifies `root, repr
      ensures InsertDone(c, t, u)
      decreases c, 2
    {
      hide At, Plug, Spine, Keys;
      ghost var g, j := c.up, Join(c.side, t, c.node, c.color, c.key, c.sib);
      Site(c, t);
      AtUp(c, t);
      Site(g, j);
      var parent := node.parent;
      if node == parent.right && parent == parent.parent.left {
        Rotate(Left, parent, g, j);
        OuterBalanced(c, t, h);
        OuterInOrder(c, t);
        AtUp(OuterCtx(c, t), OuterTree(c, t));
        u := Insert5(parent, OuterCtx(c, t), OuterTree(c, t), h);
      } else if node == parent.left && parent == parent.parent.right {
        Rotate(Right, parent, g, j);
        OuterBalanced(c, t, h);
        OuterInOrder(c, t);
        AtUp(OuterCtx(c, t), OuterTree(c, t));
        u := Insert5(parent, OuterCtx(c, t), OuterTree(c, t), h);
      } else {
        u := Insert5(node, c, t, h);
      }
    }

    method Insert5(node: Node<K>, ghost c: Ctx<K>, ghost t: Tree<K>, ghost h: nat) returns (ghost u: Tree<K>)
      requires InsertSite(node, c, t, h) && c.Hole? && c.color == Red
      requires RootColor(c.up.sib) == Black && c.side == c.up.side
      modifies `root, repr
      ensures InsertDone(c, t, u)
    {
      hide At, Plug, Spine, Keys;
      ghost var g, j := c.up, Join(c.side, t, c.node, c.color, c.key, c.sib);
      Site(c, t);
      AtUp(c, t);
      Site(g, j);
      var parent, grandfather := node.parent, node.parent.parent;
      var outerLeft := node == parent.left && parent == grandfather.left;
      Paint(parent, Black, g, j);
      j := j.(color := Black);
      AtUp(g, j);
      ghost var k := Join(g.side, j, g.node, g.color, g.key, g.sib);
      Paint(grandfather, Red, g.up, k);
      k := k.(color := Red);
      if outerLeft {
        Rotate(Right, grandfather, g.up, k);
      } else {
        Rotate(Left, grandfather, g.up, k);
      }
      RaisedBalanced(c, t, h);
      RaisedInOrder(c, t);
      u := Plug(g.up, Raised(c, t));
      AtTop(g.up, Raised(c, t));
    }

    // ----- searching -----

    method Find(key: K) returns (r: Node?<K>, ghost visited: nat)
      requires Valid()
      ensures r != null ==> r in repr && compare(key, r.key) == 0
      ensures r == null <==> !Has(compare, Keys(tree), key)
      ensures WithinTwoLog(visited, size)
    {
      hide At, IsOrder, Sorted, RedBlackTree, WithinTwoLog, Brackets, KeysBefore, KeysAfter, SpineBefore, SpineAfter;
      TopPlaces(compare, key, 0);
      visited := 0;
      var node := root;
      ghost var c, t := Ctx<K>.Top, tree;
      RootSite();
      while node != null
        invariant node == Ptr(t) && At(c, t) && Plug(c, t) == tree && Brackets(compare, c, key)
        invariant visited + Height(t) <= Height(tree)
        decreases t
      {
        Site(c, t);
        StepDown(compare, key, c, t);
        AtUp(Down(c, t, Left), t.left);
        AtUp(Down(c, t, Right), t.right);
        visited := visited + 1;
        var diff := compare(key, node.key);
        if diff == 0 {
          HeightBound(tree, visited);
          KeysAround(c, t);
          return node, visited;
        } else if diff < 0 {
          node := node.left;
          c, t := Down(c, t, Left), t.left;
        } else {
          node := node.right;
          c, t := Down(c, t, Right), t.right;
        }
      }
      NotBracketed(compare, c, key);
      HeightBound(tree, visited);
      return null, visited;
    }

    lemma RootSite()
      requires At(Top, tree)
      ensures root == Ptr(tree)
    {
    }

    // The i-th key is the least of those from `key` on.
    lemma FirstFrom(key: K, i: nat, low: int)
      requires Valid() && i <= |Keys(tree)| == |Spine(tree)| && 0 <= low <= 1
      requires forall j :: 0 <= j < i ==> compare(Keys(tree)[j], key) < low
      requires forall j :: i <= j < |Keys(tree)| ==> compare(key, Keys(tree)[j]) < 1 - low
      ensures i == |Keys(tree)| ==> forall k :: k in Keys(tree) ==> compare(k, key) < low
      ensures i < |Keys(tree)| ==>
        && Spine(tree)[i] in repr && Spine(tree)[i].key == Keys(tree)[i] && compare(key, Keys(tree)[i]) < 1 - low
        && forall k :: k in Keys(tree) && compare(key, k) < 1 - low ==> compare(Keys(tree)[i], k) <= 0
    {
      hide At, RedBlackTree, Spine, Keys;
      if i < |Keys(tree)| {
        KeyOf(Top, tree, i);
      }
    }

    // The first node whose key is not below `key`.
    method LowerBound(key: K) returns (r: Node?<K>, ghost i: nat)
      requires Valid()
      ensures i <= |Keys(tree)| == |Spine(tree)|
      ensures forall j :: 0 <= j < i ==> compare(Keys(tree)[j], key) < 0
      ensures forall j :: i <= j < |Keys(tree)| ==> compare(key, Keys(tree)[j]) <= 0
      ensures r == if i < |Spine(tree)| then Spine(tree)[i] else null
      ensures r == null ==> forall k :: k in Keys(tree) ==> compare(k, key) < 0
      ensures r != null ==> r in repr && r.key in Keys(tree) && compare(key, r.key) <= 0
      ensures r != null ==> forall k :: k in Keys(tree) && compare(key, k) <= 0 ==> compare(r.key, k) <= 0
    {
      hide At, IsOrder, Sorted, RedBlackTree, KeysBefore, KeysAfter;
      TopPlaces(compare, key, 0);
      var node := root;
      r := null;
      ghost var c, t := Ctx<K>.Top, tree;
      RootSite();
      while node != null
        invariant node == Ptr(t) && At(c, t) && Plug(c, t) == tree && Splits(compare, c, key, 0)
        invariant r == if SpineAfter(c) == [] then null else SpineAfter(c)[0]
        decreases t
      {
        Site(c, t);
        StepSplit(compare, key, c, t, 0);
        AtUp(Down(c, t, Left), t.left);
        AtUp(Down(c, t, Right), t.right);
        var diff := compare(key, node.key);
        if diff <= 0 {
          r := node;
          node := node.left;
          c, t := Down(c, t, Left), t.left;
        } else {
          node := node.right;
          c, t := Down(c, t, Right), t.right;
        }
      }
      i := |KeysBefore(c)|;
      SplitAt(compare, c, key, 0);
      FirstFrom(key, i, 0);
    }

    // The first node whose key is above `key`.
    method UpperBound(key: K) returns (r: Node?<K>, ghost i: nat)
      requires Valid()
      ensures i <= |Keys(tree)| == |Spine(tree)|
      ensures forall j :: 0 <= j < i ==> compare(Keys(tree)[j], key) <= 0
      ensures forall j :: i <= j < |Keys(tree)| ==> compare(key, Keys(tree)[j]) < 0
      ensures r == if i < |Spine(tree)| then Spine(tree)[i] else null
      ensures r == null ==> forall k :: k in Keys(tree) ==> compare(k, key) <= 0
      ensures r != null ==> r in repr && r.key in Keys(tree) && compare(key, r.key) < 0
      ensures r != null ==> forall k :: k in Keys(tree) && compare(key, k) < 0 ==> compare(r.key, k) <= 0
    {
      hide At, IsOrder, Sorted, RedBlackTree, KeysBefore, KeysAfter;
      TopPlaces(compare, key, 1);
      var node := root;
      r := null;
      ghost var c, t := Ctx<K>.Top, tree;
      RootSite();
      while node != null
        invariant node == Ptr(t) && At(c, t) && Plug(c, t) == tree && Splits(compare, c, key, 1)
        invariant r == if SpineAfter(c) == [] then null else SpineAfter(c)[0]
        decreases t
      {
        Site(c, t);
        StepSplit(compare, key, c, t, 1);
        AtUp(Down(c, t, Left), t.left);
        AtUp(Down(c, t, Right), t.right);
        var diff := compare(key, node.key);
        if diff < 0 {
          r := node;
          node := node.left;
          c, t := Down(c, t, Left), t.left;
        } else {
          node := node.right;
          c, t := Down(c, t, Right), t.right;
        }
      }
      i := |KeysBefore(c)|;
      SplitAt(compare, c, key, 1);
      FirstFrom(key, i, 1);
    }

    // ----- insertion -----

    // Hangs the new node under `node`, or makes it the root.
    method Attach(node: Node?<K>, left: bool, insert: Node<K>, ghost c: Ctx<K>)
      requires At(c, Nil) && node == Parent(c) && (c.Hole? ==> left == (c.side == Left))
      requires insert !in repr && insert.Fields() == Cell(null, null, null, insert.key, Red)
      modifies `root, `repr, node, insert
      ensures repr == old(repr) + {insert} && At(c, Bin(Nil, insert, Red, insert.key, Nil))
      ensures insert.key == old(insert.key)
    {
      hide Distinct, CtxDistinct, Linked, Nodes, CtxNodes;
      ghost var h := Snapshot();
      Neighbours(h, c, Nil);
      assert c.Hole? ==> h.cells[c.node] == c.node.Fields();
      if node == null {
        root := insert;
      } else if left {
        node.left := insert;
      } else {
        node.right := insert;
      }
      insert.parent := node;
      repr := repr + {insert};
      Attached(h, Snapshot(), c, insert, insert.key);
    }

    // The descent of an insertion: either a node with an equal key, or the node under
    // which, and the side on which, the key belongs.
    method Seek(key: K) returns (node: Node?<K>, found: bool, left: bool, ghost c: Ctx<K>)
      requires Valid()
      ensures found ==> node != null && node in repr && compare(key, node.key) == 0 && node.key in Keys(tree)
      ensures !found ==>
        && At(c, Nil) && Plug(c, Nil) == tree && Brackets(compare, c, key)
        && node == Parent(c) && (c.Hole? ==> node in repr && left == (c.side == Left))
    {
      hide At;
      ghost var t := tree;
      c, left, found := Top, false, false;
      RootSite();
      node := root;
      if node == null {
        return;
      }
      while true
        invariant t.Bin? && node == t.node && At(c, t) && Plug(c, t) == tree && Brackets(compare, c, key)
        decreases t
      {
        Site(c, t);
        StepDown(compare, key, c, t);
        AtUp(Down(c, t, Left), t.left);
        AtUp(Down(c, t, Right), t.right);
        var diff := compare(key, node.key);
        if diff == 0 {
          PlugInOrder(c, t);
          return node, true, left, c;
        } else if diff < 0 {
          c, t := Down(c, t, Left), t.left;
          if node.left != null {
            node := node.left;
          } else {
            return node, false, true, c;
          }
        } else {
          c, t := Down(c, t, Right), t.right;
          if node.right != null {
            node := node.right;
          } else {
            return node, false, false, c;
          }
        }
      }
    }

    // A key equal to one in the set leaves everything as it was; any other key is put in
    // at the one position that keeps the keys sorted.
    method Insert(key: K) returns (r: Node<K>)
      requires Valid()
      modifies this, repr
      ensures Valid() && r in repr
      ensures Has(compare, old(Keys(tree)), key) ==>
        compare(key, r.key) == 0 && tree == old(tree) && repr == old(repr)
      ensures !Has(compare, old(Keys(tree)), key) ==>
        && fresh(r) && r.key == key && repr == old(repr) + {r}
        && exists i: nat :: PutIn(old(tree), tree, i, r, key)
    {
      hide At, IsOrder, Sorted, Spine, Keys, CtxBalanced;
      var insert := new Node(key, Red);
      var node, found, left;
      ghost var c;
      node, found, left, c := Seek(key);
      if found {
        return node;
      }
      ghost var t := Bin(Nil, insert, Red, key, Nil);
      Attach(node, left, insert, c);
      ghost var h := CtxIsBalanced(c, Nil);
      ghost var u := Insert1(insert, c, t, h);
      PutInHole(compare, c, insert, key, u);
      NotBracketed(compare, c, key);
      KeyOf(Top, u, |KeysBefore(c)|);
      size := size + 1;
      tree := u;
      return insert;
    }

    // ----- rebalancing before erasure -----

    // Before each case: the context is balanced for a tree one black node higher than the
    // one that will be left at the focus. The focus itself is only carried along.
    ghost predicate EraseSite(node: Node<K>, c: Ctx<K>, t: Tree<K>, h: nat)
      reads `root, `repr, repr
    {
      At(c, t) && t.Bin? && t.node == node && CtxBalanced(c, h + 1)
    }

    // After: the same focus in a context balanced for the shorter tree, which may be red.
    ghost predicate EraseDone(c: Ctx<K>, t: Tree<K>, h: nat, d: Ctx<K>)
      reads `root, `repr, repr
    {
      At(d, t) && CtxBalanced(d, h) && (d.Hole? ==> TakesRed(d)) && SameOrder(c, d)
    }

    method Erase1(node: Node<K>, ghost c: Ctx<K>, ghost t: Tree<K>, ghost h: nat) returns (ghost d: Ctx<K>)
      requires EraseSite(node, c, t, h)
      modifies `root, repr
      ensures EraseDone(c, t, h, d)
      decreases BlackDepth(c), 6
    {
      hide At;
      Site(c, t);
      if node.parent != null {
        d := Erase2(node, c, t, h);
      } else {
        d := c;
      }
    }

    method Erase2(node: Node<K>, ghost c: Ctx<K>, ghost t: Tree<K>, ghost h: nat) returns (ghost d: Ctx<K>)
      requires EraseSite(node, c, t, h) && c.Hole?
      modifies `root, repr
      ensures EraseDone(c, t, h, d)
      decreases BlackDepth(c), 5
    {
      hide At;
      Site(c, t);
      d := c;
      if IsRed(Sibling(node)) {
        d := SiblingRaised(c);
        RaiseSibling(node, c, t);
        SiblingRaisedBalanced(c, h + 1);
        SiblingRaisedInOrder(c);
      }
      d := Erase3(node, d, t, h);
    }

    // The red-sibling case: the sibling is rotated above the parent and turns black.
    method RaiseSibling(node: Node<K>, ghost c: Ctx<K>, ghost t: Tree<K>)
      requires At(c, t) && t.Bin? && t.node == node && c.Hole? && c.sib.Bin?
      modifies `root, repr
      ensures At(SiblingRaised(c), t)
    {
      hide At;
      Site(c, t);
      ghost var c0, c1 := c, c.(color := Red);
      AtUp(c, t);
      Paint(node.parent, Red, c.up, Join(c.side, t, c.node, c.color, c.key, c.sib));
      AtUp(c1, t);
      Site(c1, t);
      ghost var s := Hole(c.up, Other(c.side), c.node, Red, c.key, t);
      AtUp(s, c.sib);
      Paint(Sibling(node), Black, s, c.sib);
      ghost var c2 := c1.(sib := c.sib.(color := Black));
      AtUp(s, c2.sib);
      AtUp(c2, t);
      Site(c2, t);
      if node == node.parent.left {
        Rotate(Left, node.parent, c.up, Join(c.side, t, c.node, Red, c.key, c2.sib));
      } else {
        Rotate(Right, node.parent, c.up, Join(c.side, t, c.node, Red, c.key, c2.sib));
      }
      AtUp(SiblingRaised(c), t);
      AtUp(SiblingRaised(c).up, Join(c.side, t, c.node, Red, c.key, Child(c.sib, c.side)));
    }

    method Erase3(node: Node<K>, ghost c: Ctx<K>, ghost t: Tree<K>, ghost h: nat) returns (ghost d: Ctx<K>)
      requires EraseSite(node, c, t, h) && c.Hole? && RootColor(c.sib) == Black
      modifies `root, repr
      ensures EraseDone(c, t, h, d)
      decreases BlackDepth(c), 4
    {
      hide At;
      Site(c, t);
      var parent, sibling := node.parent, Sibling(node);
      if !IsRed(parent) && !IsRed(sibling) && !IsRed(sibling.left) && !IsRed(sibling.right) {
        ghost var s := Hole(c.up, Other(c.side), c.node, c.color, c.key, t);
        AtUp(c, t);
        AtUp(s, c.sib);
        Paint(sibling, Red, s, c.sib);
        ghost var r := c.sib.(color := Red);
        AtUp(s, r);
        d := Erase1(parent, c.up, Join(c.side, t, c.node, Black, c.key, r), h + 1);
        d := Hole(d, c.side, c.node, Black, c.key, r);
        AtUp(d, t);
      } else {
        d := Erase4(node, c, t, h);
      }
    }

    method Erase4(node: Node<K>, ghost c: Ctx<K>, ghost t: Tree<K>, ghost h: nat) returns (ghost d: Ctx<K>)
      requires EraseSite(node, c, t, h) && c.Hole? && RootColor(c.sib) == Black
      requires c.color == Black ==> !BlackNephews(c.sib)
      modifies `root, repr
      ensures EraseDone(c, t, h, d)
      decreases BlackDepth(c), 3
    {
      hide At;
      Site(c, t);
      var parent, sibling := node.parent, Sibling(node);
      if IsRed(parent) && !IsRed(sibling) && !IsRed(sibling.left) && !IsRed(sibling.right) {
        ghost var s := Hole(c.up, Other(c.side), c.node, c.color, c.key, t);
        AtUp(c, t);
        AtUp(s, c.sib);
        Paint(sibling, Red, s, c.sib);
        ghost var r := c.sib.(color := Red);
        AtUp(s, r);
        Paint(parent, Black, c.up, Join(c.side, t, c.node, c.color, c.key, r));
        d := SiblingReddened(c);
        AtUp(d, t);
      } else {
        d := Erase5(node, c, t, h);
      }
    }

    method Erase5(node: Node<K>, ghost c: Ctx<K>, ghost t: Tree<K>, ghost h: nat) returns (ghost d: Ctx<K>)
      requires EraseSite(node, c, t, h) && c.Hole? && RootColor(c.sib) == Black && !BlackNephews(c.sib)
      modifies `root, repr
      ensures EraseDone(c, t, h, d)
      decreases BlackDepth(c), 2
    {
      hide At;
      Site(c, t);
      var sibling := Sibling(node);
      d := c;
      if node == node.parent.left && !IsRed(sibling) && IsRed(sibling.left) && !IsRed(sibling.right) {
        RaiseNear(Right, sibling, sibling.left, c, t);
        NearRaisedBalanced(c, h + 1);
        NearRaisedInOrder(c);
        d := NearRaised(c);
      } else if node == node.parent.right && !IsRed(sibling) && IsRed(sibling.right) && !IsRed(sibling.left) {
        RaiseNear(Left, sibling, sibling.right, c, t);
        NearRaisedBalanced(c, h + 1);
        NearRaisedInOrder(c);
        d := NearRaised(c);
      }
      d := Erase6(node, d, t, h);
    }

    // The sibling turns red, its near child black, and the sibling is rotated away.
    method RaiseNear(away: Side, sibling: Node<K>, near: Node<K>, ghost c: Ctx<K>, ghost t: Tree<K>)
      requires At(c, t) && c.Hole? && c.sib.Bin? && away == Other(c.side) && Child(c.sib, c.side).Bin?
      requires sibling == c.sib.node && near == Child(c.sib, c.side).node
      modifies `root, repr
      ensures At(NearRaised(c), t)
    {
      hide At;
      ghost var s := Hole(c.up, away, c.node, c.color, c.key, t);
      AtUp(c, t);
      AtUp(s, c.sib);
      Paint(sibling, Red, s, c.sib);
      ghost var r := c.sib.(color := Red);
      ghost var n := Child(r, c.side);
      ghost var u := Hole(s, c.side, r.node, Red, r.key, Child(r, away));
      AtUp(u, n);
      Paint(near, Black, u, n);
      AtUp(u, n.(color := Black));
      Rotate(away, sibling, s, Join(c.side, n.(color := Black), r.node, Red, r.key, Child(r, away)));
      AtUp(s, NearRaised(c).sib);
      AtUp(NearRaised(c), t);
    }

    method Erase6(node: Node<K>, ghost c: Ctx<K>, ghost t: Tree<K>, ghost h: nat) returns (ghost d: Ctx<K>)
      requires EraseSite(node, c, t, h) && c.Hole? && c.sib.Bin? && RootColor(c.sib) == Black
      requires RootColor(Child(c.sib, Other(c.side))) == Red
      modifies `root, repr
      ensures EraseDone(c, t, h, d)
    {
      hide At;
      Site(c, t);
      ghost var away := Other(c.side);
      var parent, sibling := node.parent, Sibling(node);
      ghost var s := Hole(c.up, away, c.node, c.color, c.key, t);
      AtUp(c, t);
      AtUp(s, c.sib);
      Paint(sibling, parent.color, s, c.sib);
      ghost var r := c.sib.(color := c.color);
      AtUp(s, r);
      ghost var j := Join(c.side, t, c.node, c.color, c.key, r);
      Paint(parent, Black, c.up, j);
      d := c.(color := Black, sib := r);
      s := s.(color := Black);
      AtUp(d, t);
      Site(d, t);
      AtUp(s, r);
      ghost var f := Child(r, away);
      ghost var u := Hole(s, away, r.node, r.color, r.key, Child(r, c.side));
      AtUp(u, f);
      if node == node.parent.left {
        Paint(sibling.right, Black, u, f);
      } else {
        Paint(sibling.left, Black, u, f);
      }
      f := f.(color := Black);
      AtUp(u, f);
      r := Join(away, f, r.node, r.color, r.key, Child(r, c.side));
      AtUp(s, r);
      AtUp(d.(sib := r), t);
      Site(d.(sib := r), t);
      if node == node.parent.left {
        Rotate(Left, node.parent, c.up, Join(c.side, t, c.node, Black, c.key, r));
      } else {
        Rotate(Right, node.parent, c.up, Join(c.side, t, c.node, Black, c.key, r));
      }
      d := FarRaised(c);
      AtUp(d.up, Join(c.side, t, c.node, Black, c.key, Child(r, c.side)));
      AtUp(d, t);
      FarRaisedBalanced(c, h);
      FarRaisedInOrder(c);
    }

    // Unlinks `node`, whose only child (if any) is `child`.
    method SpliceOut(node: Node<K>, child: Node?<K>, ghost c: Ctx<K>, ghost t: Tree<K>, ghost d: Tree<K>)
      requires At(c, t) && t.Bin? && t.node == node && Ptr(d) == child
      requires (t.left == d && t.right.Nil?) || (t.right == d && t.left.Nil?)
      modifies `root, `repr, repr
      ensures At(c, d) && repr == old(repr) - {node} && node.parent == Parent(c)
    {
      hide Focused, Distinct, CtxDistinct, Linked, CtxLinked, Nodes, CtxNodes;
      ghost var h := Snapshot();
      Neighbours(h, c, t);
      SpliceSite(h, c, t, d);
      assert h.cells[node] == node.Fields();
      assert c.Hole? ==> h.cells[c.node] == c.node.Fields();
      Replace(node, child);
      repr := repr - {node};
      Spliced(h, Snapshot(), c, t, d);
    }

    // The last node of a subtree. In order it is the one just before whatever follows the
    // subtree.
    method Max(node: Node<K>, ghost c: Ctx<K>, ghost t: Tree<K>) returns (r: Node<K>, ghost d: Ctx<K>, ghost u: Tree<K>)
      requires At(c, t) && t.Bin? && t.node == node
      ensures At(d, u) && u.Bin? && u.node == r && u.right.Nil? && r.right == null && Plug(d, u) == Plug(c, t)
      ensures |SpineAfter(d)| == |SpineAfter(c)|
    {
      hide At;
      r, d, u := node, c, t;
      Site(d, u);
      while r.right != null
        invariant At(d, u) && u.Bin? && u.node == r && Plug(d, u) == Plug(c, t) && r.right == Ptr(u.right)
        invariant |SpineAfter(d)| == |SpineAfter(c)|
        decreases u
      {
        AtUp(Down(d, u, Right), u.right);
        r, d, u := r.right, Down(d, u, Right), u.right;
        Site(d, u);
      }
    }

    method SetKey(node: Node<K>, key: K, ghost c: Ctx<K>, ghost t: Tree<K>)
      requires At(c, t) && t.Bin? && t.node == node
      modifies repr
      ensures At(c, t.(key := key)) && node.key == key && node.left == old(node.left) && node.right == old(node.right)
      ensures forall n :: n in repr && n != node ==> n.Fields() == old(n.Fields())
    {
      hide Distinct, CtxDistinct, Linked, CtxLinked, Nodes, CtxNodes;
      ghost var h := Snapshot();
      Site(c, t);
      node.key := key;
      Retouched(h, Snapshot(), c, t, key, t.color);
    }

    // Where a node sits in order.
    lemma PlaceOf(c: Ctx<K>, t: Tree<K>, i: nat)
      requires At(c, t) && t.Bin? && i < |Spine(Plug(c, t))| && Spine(Plug(c, t))[i] == t.node
      ensures i == |SpineBefore(c)| + |Spine(t.left)|
    {
      hide At, Plug, SpineBefore, SpineAfter, KeysBefore, KeysAfter, Keys;
      KeysAround(c, t);
      AtTop(c, t);
      SpineUniqueAt(Plug(c, t), i, |SpineBefore(c) + Spine(t.left)|);
    }

    lemma SpineUniqueAt(t: Tree<K>, i: nat, j: nat)
      requires At(Top, t) && i < |Spine(t)| && j < |Spine(t)| && Spine(t)[i] == Spine(t)[j]
      ensures i == j
    {
      SpineUnique(t, i, j);
    }

    // Swaps the keys of `node` and its predecessor in order.
    method SwapKeys(node: Node<K>, pred: Node<K>, ghost i: nat)
      requires At(Top, tree) && RedBlackTree(tree)
      requires 0 < i < |Spine(tree)| && Spine(tree)[i] == node && Spine(tree)[i - 1] == pred
      modifies `tree, repr
      ensures At(Top, tree) && RedBlackTree(tree) && Spine(tree) == old(Spine(tree)) && |old(Keys(tree))| == |Spine(tree)|
      ensures Keys(tree) == old(Keys(tree))[i := old(Keys(tree))[i - 1]][i - 1 := old(Keys(tree))[i]]
      ensures pred.left == old(pred.left) && pred.right == old(pred.right)
    {
      hide At, Plug, SpineBefore, SpineAfter, KeysBefore, KeysAfter, Spine, Keys;
      SpineKeysLength(tree);
      KeyOf(Top, tree, i);
      KeyOf(Top, tree, i - 1);
      var k := node.key;
      Rekey(node, pred.key, i);
      Rekey(pred, k, i - 1);
    }

    method Rekey(node: Node<K>, key: K, ghost i: nat)
      requires At(Top, tree) && RedBlackTree(tree) && i < |Spine(tree)| && Spine(tree)[i] == node
      modifies `tree, repr
      ensures At(Top, tree) && RedBlackTree(tree) && Spine(tree) == old(Spine(tree))
      ensures i < |old(Keys(tree))| && Keys(tree) == old(Keys(tree))[i := key]
      ensures forall n :: n in repr ==> n.left == old(n.left) && n.right == old(n.right)
    {
      hide At, SpineBefore, SpineAfter, KeysBefore, KeysAfter, Spine, Keys;
      ghost var c, t := Place(i);
      SetKey(node, key, c, t);
      RekeyInOrder(c, t, key, i);
      RekeyBalanced(c, t, key);
      tree := Plug(c, t.(key := key));
      AtTop(c, t.(key := key));
    }

    lemma Place(i: nat) returns (c: Ctx<K>, t: Tree<K>)
      requires At(Top, tree) && i < |Spine(tree)|
      ensures At(c, t) && Plug(c, t) == tree && t.Bin? && t.node == Spine(tree)[i]
      ensures i == |SpineBefore(c)| + |Spine(t.left)|
    {
      SpineAt(tree, i);
      c, t := Locate(Top, tree, Spine(tree)[i]);
      AtTop(c, t);
      PlaceOf(c, t, i);
    }

    // Takes out a node with at most one child: the tree is rebalanced while the node is
    // still in place, and only then is it replaced by its child.
    method EraseEnd(node: Node<K>, ghost c: Ctx<K>, ghost t: Tree<K>)
      requires At(c, t) && t.Bin? && t.node == node && Plug(c, t) == tree && RedBlackTree(tree)
      requires t.left.Nil? || t.right.Nil?
      modifies `root, `tree, `repr, repr
      ensures At(Top, tree) && RedBlackTree(tree) && repr == old(repr) - {node}
      ensures var i := |SpineBefore(c)| + |Spine(t.left)|;
        && i < |old(Spine(tree))| == |old(Keys(tree))|
        && Spine(tree) == RemoveAt(old(Spine(tree)), i) && Keys(tree) == RemoveAt(old(Keys(tree)), i)
    {
      hide At, Plug, SpineBefore, SpineAfter, KeysBefore, KeysAfter, RemoveAt, Balanced, Spine, Keys, Linked, Nodes;
      Site(c, t);
      ghost var h := CtxIsBalanced(c, t);
      var child := if node.right != null then node.right else node.left;
      ghost var d := if t.right.Bin? then t.right else t.left;
      ghost var e, u := c, t;
      OnlyChild(t, d, h);
      if !IsRed(node) {
        var col := if IsRed(child) then Red else Black;
        Paint(node, col, c, t);
        u := t.(color := col);
        h := h - 1;
        e := Erase1(node, c, u, h);
      }
      SpliceOut(node, child, e, u, d);
      if node.parent == null && child != null {
        Paint(child, Black, e, d);
        h := BlackenedBalanced(d, h);
        d := d.(color := Black);
      }
      PlugBalanced(e, d, h);
      RemovedInOrder(c, t, e, d, |SpineBefore(c)| + |Spine(t.left)|);
      AtTop(e, d);
      tree := Plug(e, d);
    }

    // A node with two children first trades keys with its predecessor, which is then the
    // node taken out. The key taken out is always the node's own.
    method EraseNode(node: Node<K>, ghost i: nat)
      requires Valid() && i < |Spine(tree)| && Spine(tree)[i] == node
      modifies this, repr
      ensures Valid() && size == old(size) - 1 && repr < old(repr)
      ensures i < |old(Keys(tree))| && Keys(tree) == RemoveAt(old(Keys(tree)), i)
      ensures Spine(tree) == RemoveAt(old(Spine(tree)), i) ||
              (i > 0 && Spine(tree) == RemoveAt(old(Spine(tree)), i - 1))
    {
      hide At, IsOrder, Sorted, RedBlackTree, SpineBefore, SpineAfter, KeysBefore, KeysAfter, RemoveAt, Spine, Keys;
      ghost var c, t := Place(i);
      ghost var j := i;
      var n := node;
      Site(c, t);
      SpineKeysLength(tree);
      if n.left != null && n.right != null {
        AtUp(Down(c, t, Left), t.left);
        var pred;
        ghost var d, u;
        pred, d, u := Max(n.left, Down(c, t, Left), t.left);
        BeforeRoot(c, t, d, u);
        SwapKeys(n, pred, i);
        n := pred;
        j := i - 1;
        c, t := Place(j);
        Site(c, t);
      }
      EraseEnd(n, c, t);
      size := size - 1;
      SortedRemove(compare, old(Keys(tree)), i);
      if j < i {
        RemoveSwapped(old(Keys(tree)), i);
      }
    }

    lemma IndexOf(x: Node<K>) returns (i: nat)
      requires At(Top, tree) && x in repr
      ensures i < |Spine(tree)| && Spine(tree)[i] == x
    {
      i := InSpine(tree, x);
    }

    method Erase(key: K)
      requires Valid()
      modifies this, repr
      ensures Valid() && repr <= old(repr)
      ensures !Has(compare, old(Keys(tree)), key) ==> tree == old(tree)
      ensures forall i :: 0 <= i < |old(Keys(tree))| && compare(key, old(Keys(tree))[i]) == 0 ==>
        Keys(tree) == RemoveAt(old(Keys(tree)), i)
    {
      var node;
      ghost var visited;
      node, visited := Find(key);
      if node != null {
        ghost var i := IndexOf(node);
        KeyOf(Top, tree, i);
        EqualAt(compare, Keys(tree), key, i);
        EraseNode(node, i);
      }
    }

    // ----- iterating in order -----

    method Min(node: Node<K>, ghost c: Ctx<K>, ghost t: Tree<K>) returns (r: Node<K>, ghost d: Ctx<K>, ghost u: Tree<K>)
      requires At(c, t) && t.Bin? && t.node == node
      ensures At(d, u) && u.Bin? && u.node == r && u.left.Nil? && Plug(d, u) == Plug(c, t)
      ensures |SpineBefore(d)| == |SpineBefore(c)|
    {
      hide At;
      r, d, u := node, c, t;
      Site(d, u);
      while r.left != null
        invariant At(d, u) && u.Bin? && u.node == r && Plug(d, u) == Plug(c, t) && r.left == Ptr(u.left)
        invariant |SpineBefore(d)| == |SpineBefore(c)|
        decreases u
      {
        AtUp(Down(d, u, Left), u.left);
        r, d, u := r.left, Down(d, u, Left), u.left;
        Site(d, u);
      }
    }

    // The node that an iteration starts from.
    method First() returns (r: Node?<K>)
      requires At(Top, tree)
      ensures r == if Spine(tree) == [] then null else Spine(tree)[0]
    {
      RootSite();
      r := root;
      if r != null {
        ghost var d, u;
        r, d, u := Min(r, Top, tree);
        KeysAround(d, u);
      }
    }

    // The node after `node` in order, found by its child and parent links.
    method Next(node: Node<K>, ghost i: nat) returns (r: Node?<K>)
      requires At(Top, tree) && i < |Spine(tree)| && Spine(tree)[i] == node
      ensures r == if i + 1 < |Spine(tree)| then Spine(tree)[i + 1] else null
    {
      hide At;
      ghost var c, t := Place(i);
      Site(c, t);
      KeysAround(c, t);
      if node.right != null {
        ghost var d, u;
        AtUp(Down(c, t, Right), t.right);
        r, d, u := Min(node.right, Down(c, t, Right), t.right);
        KeysAround(d, u);
      } else {
        var self, parent := node, node.parent;
        ghost var after := SpineAfter(c);
        while parent != null && self == parent.right
          invariant At(c, t) && t.Bin? && t.node == self && parent == Parent(c) && SpineAfter(c) == after
          decreases c
        {
          Site(c, t);
          AtUp(c, t);
          c, t := c.up, Join(c.side, t, c.node, c.color, c.key, c.sib);
          Site(c, t);
          self, parent := parent, parent.parent;
        }
        Site(c, t);
        r := parent;
      }
    }

    // Erases while iterating. The successor is looked up before the body runs; erasing may
    // free the predecessor instead of the current node, but never the successor.
    method RemoveIf(match_: K -> bool) returns (erases: nat)
      requires Valid()
      modifies this, repr
      ensures Valid() && repr <= old(repr)
      ensures Keys(tree) == Kept(old(Keys(tree)), match_)
      ensures erases == old(size) - size
    {
      hide Valid, Kept, Filtering, KeptPlace, Spine, Keys, At, Sweeping;
      ghost var all, m: nat := Keys(tree), 0;
      erases := 0;
      Sizes();
      var node := First();
      StartSweep(match_, node);
      while node != null
        invariant Valid() && repr <= old(repr) && m <= |all| && erases == |all| - |Keys(tree)|
        invariant Sweeping(all, match_, m, node)
        decreases |all| - m
      {
        StillSweeping(all, match_, m, node);
        var next, erased := SweepNode(node, match_, all, m);
        erases := erases + erased;
        node := next;
        m := m + 1;
      }
      EndSweep(all, match_, m);
      Sizes();
    }

    // The walk is at the m-th key of the original set.
    ghost predicate Sweeping(all: seq<K>, match_: K -> bool, m: nat, node: Node?<K>)
      reads this
    {
      && m <= |all| && Filtering(all, match_, Keys(tree), m) && |Spine(tree)| == |Keys(tree)|
      && var q := KeptPlace(all, match_, m);
        (m < |all| <==> q < |Keys(tree)|) && node == if q < |Spine(tree)| then Spine(tree)[q] else null
    }

    method SweepNode(node: Node<K>, match_: K -> bool, ghost all: seq<K>, ghost m: nat) returns (next: Node?<K>, erased: nat)
      requires Valid() && Sweeping(all, match_, m, node)
      modifies this, repr
      ensures Valid() && repr <= old(repr) && m < |all| && Sweeping(all, match_, m + 1, next)
      ensures |Keys(tree)| == old(|Keys(tree)|) - erased
    {
      hide Valid, Kept, Filtering, KeptPlace, Spine, Keys, RemoveAt, At;
      ghost var q := KeptPlace(all, match_, m);
      Sizes();
      KeyAt(q);
      FilterOne(all, match_, Keys(tree), m);
      erased := 0;
      next := Next(node, q);
      if match_(node.key) {
        SweepErase(node, q, next);
        erased := 1;
      }
    }

    // Erases the current node; the next one takes its place in the order.
    method SweepErase(node: Node<K>, ghost q: nat, next: Node?<K>)
      requires Valid() && q < |Spine(tree)| == |Keys(tree)| && node == Spine(tree)[q]
      requires next == if q + 1 < |Spine(tree)| then Spine(tree)[q + 1] else null
      modifies this, repr
      ensures Valid() && repr <= old(repr) && |Spine(tree)| == |Keys(tree)|
      ensures Keys(tree) == old(Keys(tree)[..q] + Keys(tree)[q + 1..])
      ensures next == if q < |Spine(tree)| then Spine(tree)[q] else null
    {
      hide Valid, RemoveAt, Spine, Keys;
      ghost var keys, spine := Keys(tree), Spine(tree);
      RemoveAtIs(keys, q);
      EraseNode(node, q);
      Sizes();
      assert |Keys(tree)| == |keys| - 1;
      if next != null {
        SuccessorStays(spine, q);
        assert Spine(tree)[q] == spine[q + 1];
      }
    }

    lemma KeyAt(q: nat)
      requires Valid() && q < |Spine(tree)|
      ensures |Spine(tree)| == |Keys(tree)| && Spine(tree)[q] in repr && Spine(tree)[q].key == Keys(tree)[q]
    {
      Sizes();
      KeyOf(Top, tree, q);
    }

    lemma StartSweep(match_: K -> bool, node: Node?<K>)
      requires Valid() && node == if Spine(tree) == [] then null else Spine(tree)[0]
      ensures Sweeping(Keys(tree), match_, 0, node)
    {
      hide Valid, Kept, Filtering, KeptPlace, Spine, Keys;
      Sizes();
      StartFilter(Keys(tree), match_);
    }

    lemma StillSweeping(all: seq<K>, match_: K -> bool, m: nat, node: Node?<K>)
      requires Sweeping(all, match_, m, node)
      ensures m <= |all| && (node != null <==> m < |all|)
    {
    }

    lemma EndSweep(all: seq<K>, match_: K -> bool, m: nat)
      requires Sweeping(all, match_, m, null)
      ensures Keys(tree) == Kept(all, match_)
    {
      EndFilter(all, match_, Keys(tree));
    }

    lemma Sizes()
      requires Valid()
      ensures At(Top, tree) && size == |Keys(tree)| == |Spine(tree)|
    {
      SpineKeysLength(tree);
    }
  }

  // `x` with key `k` became the i-th node in order.
  ghost predicate PutIn<K>(t: Tree<K>, u: Tree<K>, i: nat, x: Node<K>, k: K) {
    && i <= |Spine(t)| && i <= |Keys(t)|
    && Spine(u) == InsertAt(Spine(t), i, x) && Keys(u) == InsertAt(Keys(t), i, k)
  }

  lemma PutInHole<K(!new)>(cmp: (K, K) -> int, c: Ctx<K>, x: Node<K>, k: K, u: Tree<K>)
    requires IsOrder(cmp) && Sorted(cmp, Keys(Plug(c, Nil))) && Brackets(cmp, c, k)
    requires Spine(u) == Spine(Plug(c, Bin(Nil, x, Red, k, Nil))) && Keys(u) == Keys(Plug(c, Bin(Nil, x, Red, k, Nil)))
    ensures Sorted(cmp, Keys(u)) && |Keys(u)| == |Keys(Plug(c, Nil))| + 1
    ensures PutIn(Plug(c, Nil), u, |KeysBefore(c)|, x, k)
  {
    hide Spine, Keys, SpineBefore, SpineAfter, KeysBefore, KeysAfter;
    PlugInOrder(c, Nil);
    PlugInOrder(c, Bin(Nil, x, Red, k, Nil));
    LeafInOrder(x, Red, k);
    assert KeysBefore(c) + [] == KeysBefore(c) && SpineBefore(c) + [] == SpineBefore(c);
    CtxSpineKeysLength(c);
    InsertAtSeam(KeysBefore(c), KeysAfter(c), k);
    InsertAtSeam(SpineBefore(c), SpineAfter(c), x);
    SortedInsert(cmp, KeysBefore(c), KeysAfter(c), k);
  }

  lemma NotBracketed<K(!new)>(cmp: (K, K) -> int, c: Ctx<K>, k: K)
    requires IsOrder(cmp) && Brackets(cmp, c, k)
    ensures !Has(cmp, Keys(Plug(c, Nil)), k)
  {
    PlugInOrder(c, Nil);
  }
}
