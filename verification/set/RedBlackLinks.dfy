// How linked nodes stand for a tree. A Heap is a snapshot of the root pointer and of
// every node's fields; the lemmas say which tree the snapshot stands for after one
// step of pointer surgery at a focus, whatever surrounds it.
module RedBlackLinks {
  import opened RedBlack

  datatype Heap<K> = Heap(root: Node?<K>, cells: map<Node<K>, Cell<K>>)

  ghost function Ptr<K>(t: Tree<K>): Node?<K> {
    if t.Nil? then null else t.node
  }

  ghost function Parent<K>(c: Ctx<K>): Node?<K> {
    if c.Top? then null else c.node
  }

  ghost function Nodes<K>(t: Tree<K>): set<Node<K>> {
    match t
    case Nil => {}
    case Bin(l, x, _, _, r) => Nodes(l) + {x} + Nodes(r)
  }

  ghost function CtxNodes<K>(c: Ctx<K>): set<Node<K>> {
    match c
    case Top => {}
    case Hole(up, _, x, _, _, sib) => CtxNodes(up) + {x} + Nodes(sib)
  }

  ghost predicate Distinct<K>(t: Tree<K>) {
    match t
    case Nil => true
    case Bin(l, x, _, _, r) =>
      x !in Nodes(l) && x !in Nodes(r) && Nodes(l) !! Nodes(r) && Distinct(l) && Distinct(r)
  }

  ghost predicate CtxDistinct<K>(c: Ctx<K>) {
    match c
    case Top => true
    case Hole(up, _, x, _, _, sib) =>
      x !in CtxNodes(up) && x !in Nodes(sib) && CtxNodes(up) !! Nodes(sib) && CtxDistinct(up) && Distinct(sib)
  }

  // A node with child `inner` on the given side and `outer` on the other.
  ghost function CellAt<K>(s: Side, inner: Node?<K>, outer: Node?<K>, p: Node?<K>, k: K, c: Color): Cell<K> {
    if s == Left then Cell(inner, outer, p, k, c) else Cell(outer, inner, p, k, c)
  }

  ghost predicate Linked<K>(m: map<Node<K>, Cell<K>>, t: Tree<K>, p: Node?<K>) {
    match t
    case Nil => true
    case Bin(l, x, c, k, r) =>
      x in m && m[x] == Cell(Ptr(l), Ptr(r), p, k, c) && Linked(m, l, x) && Linked(m, r, x)
  }

  ghost predicate CtxLinked<K>(h: Heap<K>, c: Ctx<K>, hole: Node?<K>) {
    match c
    case Top => h.root == hole
    case Hole(up, s, x, col, k, sib) =>
      && x in h.cells && h.cells[x] == CellAt(s, hole, Ptr(sib), Parent(up), k, col)
      && Linked(h.cells, sib, x) && CtxLinked(h, up, x)
  }

  lemma {:induction false} SpineLinked<K>(m: map<Node<K>, Cell<K>>, t: Tree<K>, p: Node?<K>, i: nat)
    requires Linked(m, t, p) && i < |Spine(t)| == |Keys(t)|
    ensures Spine(t)[i] in m && m[Spine(t)[i]].key == Keys(t)[i]
  {
    SpineKeysLength(t.left);
    SpineKeysLength(t.right);
    var n := |Spine(t.left)|;
    if i < n {
      SpineLinked(m, t.left, t.node, i);
    } else if i > n {
      SpineLinked(m, t.right, t.node, i - n - 1);
    }
  }

  // The snapshot stands for Plug(c, t).
  ghost predicate Focused<K>(h: Heap<K>, c: Ctx<K>, t: Tree<K>) {
    && h.cells.Keys == CtxNodes(c) + Nodes(t)
    && Distinct(t) && CtxDistinct(c) && Nodes(t) !! CtxNodes(c)
    && Linked(h.cells, t, Parent(c)) && CtxLinked(h, c, Ptr(t))
  }

  lemma FocusUp<K>(h: Heap<K>, c: Ctx<K>, t: Tree<K>)
    requires c.Hole?
    ensures Focused(h, c, t) <==> Focused(h, c.up, Join(c.side, t, c.node, c.color, c.key, c.sib))
  {
  }

  lemma {:induction false} FocusTop<K>(h: Heap<K>, c: Ctx<K>, t: Tree<K>)
    ensures Focused(h, c, t) <==> Focused(h, Top, Plug(c, t))
  {
    match c
    case Top =>
    case Hole(up, s, x, col, k, sib) =>
      FocusUp(h, c, t);
      FocusTop(h, up, Join(s, t, x, col, k, sib));
  }

  // ----- frames -----

  ghost predicate Unchanged<K>(h: Heap<K>, g: Heap<K>, but: set<Node?<K>>) {
    forall n :: n in h.cells && n !in but ==> n in g.cells && g.cells[n] == h.cells[n]
  }

  lemma {:induction false} LinkedFrame<K>(h: Heap<K>, g: Heap<K>, t: Tree<K>, p: Node?<K>, but: set<Node?<K>>)
    requires Linked(h.cells, t, p) && Unchanged(h, g, but) && but !! Nodes(t)
    ensures Linked(g.cells, t, p)
  {
    match t
    case Nil =>
    case Bin(l, x, _, _, r) =>
      LinkedFrame(h, g, l, x, but);
      LinkedFrame(h, g, r, x, but);
  }

  // Only the root's parent link, key and colour changed.
  lemma Reparented<K>(h: Heap<K>, g: Heap<K>, t: Tree<K>, p: Node?<K>, q: Node?<K>, but: set<Node?<K>>)
    requires Linked(h.cells, t, p) && Distinct(t) && Unchanged(h, g, but) && but !! (Nodes(t) - {Ptr(t)})
    requires t.Bin? ==> t.node in g.cells && g.cells[t.node] == h.cells[t.node].(parent := q)
    ensures Linked(g.cells, t, q)
  {
    if t.Bin? {
      LinkedFrame(h, g, t.left, t.node, but);
      LinkedFrame(h, g, t.right, t.node, but);
    }
  }

  lemma {:induction false} CtxFrame<K>(h: Heap<K>, g: Heap<K>, c: Ctx<K>, hole: Node?<K>, but: set<Node?<K>>)
    requires CtxLinked(h, c, hole) && Unchanged(h, g, but) && but !! CtxNodes(c) && g.root == h.root
    ensures CtxLinked(g, c, hole)
  {
    match c
    case Top =>
    case Hole(up, _, x, _, _, sib) =>
      LinkedFrame(h, g, sib, x, but);
      CtxFrame(h, g, up, x, but);
  }

  // Pointer `b` took the place of the one at the hole.
  ghost predicate Rehung<K>(h: Heap<K>, g: Heap<K>, c: Ctx<K>, b: Node?<K>) {
    match c
    case Top => g.root == b
    case Hole(_, s, x, _, _, _) =>
      && g.root == h.root && x in h.cells && x in g.cells
      && g.cells[x] == if s == Left then h.cells[x].(left := b) else h.cells[x].(right := b)
  }

  lemma Relinked<K>(h: Heap<K>, g: Heap<K>, c: Ctx<K>, a: Node?<K>, b: Node?<K>, but: set<Node?<K>>)
    requires CtxLinked(h, c, a) && CtxDistinct(c) && Unchanged(h, g, but) && but !! (CtxNodes(c) - {Parent(c)})
    requires Rehung(h, g, c, b)
    ensures CtxLinked(g, c, b)
  {
    if c.Hole? {
      LinkedFrame(h, g, c.sib, c.node, but);
      CtxFrame(h, g, c.up, c.node, but);
    }
  }

  // ----- a node's key or colour -----

  lemma Retouched<K>(h: Heap<K>, g: Heap<K>, c: Ctx<K>, t: Tree<K>, k: K, col: Color)
    requires Focused(h, c, t) && t.Bin? && g.root == h.root && g.cells.Keys == h.cells.Keys
    requires Unchanged(h, g, {t.node}) && g.cells[t.node] == h.cells[t.node].(key := k, color := col)
    ensures Focused(g, c, t.(key := k, color := col))
  {
    LinkedFrame(h, g, t.left, t.node, {t.node});
    LinkedFrame(h, g, t.right, t.node, {t.node});
    CtxFrame(h, g, c, t.node, {t.node});
  }

  // ----- rotation -----

  // Rotating towards `s`: the child on the other side becomes the root.
  ghost function Rotated<K>(s: Side, t: Tree<K>): Tree<K>
    requires t.Bin? && Child(t, Other(s)).Bin?
  {
    var r := Child(t, Other(s));
    Join(s, Join(s, Child(t, s), t.node, t.color, t.key, Child(r, s)), r.node, r.color, r.key, Child(r, Other(s)))
  }

  lemma RotatedNodes<K>(s: Side, t: Tree<K>)
    requires t.Bin? && Child(t, Other(s)).Bin? && Distinct(t)
    ensures Nodes(Rotated(s, t)) == Nodes(t) && Distinct(Rotated(s, t))
    ensures var r := Child(t, Other(s));
      Nodes(t) == Nodes(Child(t, s)) + {t.node} + (Nodes(Child(r, s)) + {r.node} + Nodes(Child(r, Other(s))))
  {
    var r := Child(t, Other(s));
    assert Distinct(r) && Nodes(r) == Nodes(r.left) + {r.node} + Nodes(r.right);
  }

  ghost function With<K>(x: Cell<K>, s: Side, p: Node?<K>): Cell<K> {
    if s == Left then x.(left := p) else x.(right := p)
  }

  // The effect of the pointer assignments of a rotation.
  ghost predicate RotatedLinks<K>(h: Heap<K>, g: Heap<K>, c: Ctx<K>, s: Side, t: Tree<K>)
    requires t.Bin? && Child(t, Other(s)).Bin?
  {
    var x, r := t.node, Child(t, Other(s)).node;
    var b := Ptr(Child(Child(t, Other(s)), s));
    && g.cells.Keys == h.cells.Keys && x in h.cells && r in h.cells && (b != null ==> b in h.cells)
    && Unchanged(h, g, {x, r, b, Parent(c)})
    && Rehung(h, g, c, r)
    && g.cells[x] == With(h.cells[x], Other(s), b).(parent := r)
    && g.cells[r] == With(h.cells[r], s, x).(parent := Parent(c))
    && (b != null ==> g.cells[b] == h.cells[b].(parent := x))
  }

  // The three subtrees that a rotation carries along, apart from the nodes it touches.
  lemma RotationParts<K>(h: Heap<K>, c: Ctx<K>, s: Side, t: Tree<K>)
    requires Focused(h, c, t) && t.Bin? && Child(t, Other(s)).Bin?
    ensures var x, r := t.node, Child(t, Other(s));
      var a, b, d := Child(t, s), Child(r, s), Child(r, Other(s));
      var but := {x, r.node, Ptr(b), Parent(c)};
      && Linked(h.cells, a, x) && Linked(h.cells, b, r.node) && Linked(h.cells, d, r.node) && Distinct(b)
      && but !! Nodes(a) && but !! Nodes(d) && but !! (Nodes(b) - {Ptr(b)}) && but !! (CtxNodes(c) - {Parent(c)})
  {
    var x, r := t.node, Child(t, Other(s));
    var a, b, d := Child(t, s), Child(r, s), Child(r, Other(s));
    RotatedNodes(s, t);
    assert Linked(h.cells, r, x) && Distinct(r);
    assert b.Bin? ==> b.node in Nodes(b);
    assert c.Hole? ==> c.node in CtxNodes(c);
  }

  lemma RotatedFocused<K>(h: Heap<K>, g: Heap<K>, c: Ctx<K>, s: Side, t: Tree<K>)
    requires Focused(h, c, t) && t.Bin? && Child(t, Other(s)).Bin? && RotatedLinks(h, g, c, s, t)
    ensures Focused(g, c, Rotated(s, t))
  {
    hide Distinct, CtxDistinct, Nodes, CtxNodes, CtxLinked;
    var x, r := t.node, Child(t, Other(s));
    var a, b, d := Child(t, s), Child(r, s), Child(r, Other(s));
    var but := {x, r.node, Ptr(b), Parent(c)};
    RotatedNodes(s, t);
    RotationParts(h, c, s, t);
    LinkedFrame(h, g, a, x, but);
    LinkedFrame(h, g, d, r.node, but);
    Reparented(h, g, b, r.node, x, but);
    Relinked(h, g, c, x, r.node, but);
    assert Linked(h.cells, r, x);
    assert Linked(g.cells, Join(s, a, x, t.color, t.key, b), r.node);
  }

  // What a rotation may rely on.
  lemma RotationSite<K>(h: Heap<K>, c: Ctx<K>, s: Side, t: Tree<K>)
    requires Focused(h, c, t) && t.Bin? && Child(t, Other(s)).Bin?
    ensures var x, r, p := t.node, Child(t, Other(s)).node, Parent(c);
      var b := Ptr(Child(Child(t, Other(s)), s));
      && x in h.cells && r in h.cells && (b != null ==> b in h.cells) && (p != null ==> p in h.cells)
      && h.cells[x].parent == p
      && (if s == Left then h.cells[x].right == r && h.cells[r].left == b else h.cells[x].left == r && h.cells[r].right == b)
      && x != r && x != b && r != b && p != x && p != r && (p == null || p != b)
    ensures c.Hole? ==>
      if c.side == Left then h.cells[c.node].left == t.node && h.cells[c.node].right != t.node
      else h.cells[c.node].right == t.node && h.cells[c.node].left != t.node
  {
    var r := Child(t, Other(s));
    var b := Child(r, s);
    RotatedNodes(s, t);
    assert Linked(h.cells, r, t.node) && Distinct(r);
    assert b.Bin? ==> b.node in Nodes(b) && b.node in h.cells;
  }

  // ----- attaching a leaf, splicing a node out -----

  lemma Attached<K>(h: Heap<K>, g: Heap<K>, c: Ctx<K>, x: Node<K>, k: K)
    requires Focused(h, c, Nil) && x !in h.cells && g.cells.Keys == h.cells.Keys + {x}
    requires Unchanged(h, g, {Parent(c)}) && Rehung(h, g, c, x)
    requires g.cells[x] == Cell(null, null, Parent(c), k, Red)
    ensures Focused(g, c, Bin(Nil, x, Red, k, Nil))
  {
    Relinked(h, g, c, null, x, {Parent(c)});
  }

  // Node t.node has only the child tree d; its parent now points at d.
  lemma Spliced<K>(h: Heap<K>, g: Heap<K>, c: Ctx<K>, t: Tree<K>, d: Tree<K>)
    requires Focused(h, c, t) && t.Bin? && ((t.left == d && t.right.Nil?) || (t.right == d && t.left.Nil?))
    requires g.cells.Keys == h.cells.Keys - {t.node}
    requires Unchanged(h, g, {t.node, Ptr(d), Parent(c)}) && Rehung(h, g, c, Ptr(d))
    requires d.Bin? ==> d.node in g.cells && g.cells[d.node] == h.cells[d.node].(parent := Parent(c))
    ensures Focused(g, c, d)
  {
    var but := {t.node, Ptr(d), Parent(c)};
    assert Nodes(t) == Nodes(d) + {t.node};
    assert d.Bin? ==> d.node in Nodes(d);
    Reparented(h, g, d, t.node, Parent(c), but);
    Relinked(h, g, c, t.node, Ptr(d), but);
  }

  lemma SpliceSite<K>(h: Heap<K>, c: Ctx<K>, t: Tree<K>, d: Tree<K>)
    requires Focused(h, c, t) && t.Bin? && (t.left == d || t.right == d)
    ensures d.Bin? ==> d.node in h.cells && d.node != t.node && d.node != Parent(c)
    ensures Parent(c) != t.node
  {
    assert d.Bin? ==> d.node in Nodes(d);
  }

  // ----- the neighbourhood of a focus -----

  lemma Neighbours<K>(h: Heap<K>, c: Ctx<K>, t: Tree<K>)
    requires Focused(h, c, t)
    ensures t.Bin? ==>
      && t.node in h.cells && h.cells[t.node] == Cell(Ptr(t.left), Ptr(t.right), Parent(c), t.key, t.color)
      && (t.left.Bin? ==> t.left.node in h.cells && h.cells[t.left.node].color == t.left.color)
      && (t.right.Bin? ==> t.right.node in h.cells && h.cells[t.right.node].color == t.right.color)
    ensures c.Hole? ==>
      && c.node in h.cells && h.cells[c.node] == CellAt(c.side, Ptr(t), Ptr(c.sib), Parent(c.up), c.key, c.color)
      && (t.Bin? ==> Ptr(t) != Ptr(c.sib))
    ensures c.Hole? && c.sib.Bin? ==>
      && c.sib.node in h.cells
      && h.cells[c.sib.node] == Cell(Ptr(c.sib.left), Ptr(c.sib.right), c.node, c.sib.key, c.sib.color)
      && (c.sib.left.Bin? ==> c.sib.left.node in h.cells && h.cells[c.sib.left.node].color == c.sib.left.color)
      && (c.sib.right.Bin? ==> c.sib.right.node in h.cells && h.cells[c.sib.right.node].color == c.sib.right.color)
  {
    if t.Bin? {
      assert Linked(h.cells, t.left, t.node) && Linked(h.cells, t.right, t.node);
    }
    if c.Hole? && c.sib.Bin? {
      assert Linked(h.cells, c.sib, c.node);
      assert Linked(h.cells, c.sib.left, c.sib.node) && Linked(h.cells, c.sib.right, c.sib.node);
    }
  }

  // ----- finding a node's place -----

  lemma {:induction false} Locate<K>(c: Ctx<K>, t: Tree<K>, x: Node<K>) returns (d: Ctx<K>, u: Tree<K>)
    requires x in Nodes(t)
    ensures u.Bin? && u.node == x && Plug(d, u) == Plug(c, t)
    decreases t
  {
    if x == t.node {
      d, u := c, t;
    } else if x in Nodes(t.left) {
      d, u := Locate(Down(c, t, Left), t.left, x);
    } else {
      d, u := Locate(Down(c, t, Right), t.right, x);
    }
  }

  lemma {:induction false} InSpine<K>(t: Tree<K>, x: Node<K>) returns (i: nat)
    requires x in Nodes(t)
    ensures i < |Spine(t)| && Spine(t)[i] == x
  {
    if x in Nodes(t.left) {
      i := InSpine(t.left, x);
    } else if x == t.node {
      i := |Spine(t.left)|;
    } else {
      i := InSpine(t.right, x);
      i := |Spine(t.left)| + 1 + i;
    }
  }

  lemma {:induction false} SpineAt<K>(t: Tree<K>, i: nat)
    requires i < |Spine(t)|
    ensures t.Bin? && Spine(t)[i] in Nodes(t)
    ensures var n := |Spine(t.left)|;
      if i < n then Spine(t)[i] == Spine(t.left)[i] && Spine(t)[i] in Nodes(t.left)
      else if i == n then Spine(t)[i] == t.node
      else Spine(t)[i] == Spine(t.right)[i - n - 1] && Spine(t)[i] in Nodes(t.right)
  {
    var n := |Spine(t.left)|;
    if i < n {
      SpineAt(t.left, i);
    } else if i > n {
      SpineAt(t.right, i - n - 1);
    }
  }

  lemma {:induction false} SpineUnique<K>(t: Tree<K>, i: nat, j: nat)
    requires Distinct(t) && i < |Spine(t)| && j < |Spine(t)| && Spine(t)[i] == Spine(t)[j]
    ensures i == j
  {
    SpineAt(t, i);
    SpineAt(t, j);
    var n := |Spine(t.left)|;
    if i < n && j < n {
      SpineUnique(t.left, i, j);
    } else if i > n && j > n {
      SpineUnique(t.right, i - n - 1, j - n - 1);
    }
  }
}
