// Red-black trees as values: the shape, colours and keys that the linked nodes of
// an ordered set stand for, and the contexts ("a tree with a hole") along which
// insertion and erasure climb.
module RedBlack {
  import opened Order
  import opened Powers

  datatype Color = Red | Black

  datatype Side = Left | Right

  class Node<K> {
    var left: Node?<K>
    var right: Node?<K>
    var parent: Node?<K>
    var key: K
    var color: Color

    constructor (key: K, color: Color)
      ensures this.key == key && this.color == color
      ensures left == null && right == null && parent == null
    {
      this.key, this.color := key, color;
      left, right, parent := null, null, null;
    }

    ghost function Fields(): Cell<K>
      reads this
    {
      Cell(left, right, parent, key, color)
    }
  }

  // The fields of one node, as a value.
  datatype Cell<K> = Cell(left: Node?<K>, right: Node?<K>, parent: Node?<K>, key: K, color: Color)

  datatype Tree<K> = Nil | Bin(left: Tree<K>, node: Node<K>, color: Color, key: K, right: Tree<K>)

  // `Hole` is a node whose child on `side` is missing; `sib` is its other child.
  datatype Ctx<K> = Top | Hole(up: Ctx<K>, side: Side, node: Node<K>, color: Color, key: K, sib: Tree<K>)

  function Other(s: Side): Side {
    if s == Left then Right else Left
  }

  // The tree whose root `x` has `t` on the given side and `sib` on the other.
  ghost function Join<K>(s: Side, t: Tree<K>, x: Node<K>, c: Color, k: K, sib: Tree<K>): Tree<K> {
    if s == Left then Bin(t, x, c, k, sib) else Bin(sib, x, c, k, t)
  }

  ghost function Child<K>(t: Tree<K>, s: Side): Tree<K>
    requires t.Bin?
  {
    if s == Left then t.left else t.right
  }

  ghost function Plug<K>(c: Ctx<K>, t: Tree<K>): Tree<K> {
    match c
    case Top => t
    case Hole(up, s, x, col, k, sib) => Plug(up, Join(s, t, x, col, k, sib))
  }

  // ----- nodes and keys in order -----

  ghost function Spine<K>(t: Tree<K>): seq<Node<K>> {
    match t
    case Nil => []
    case Bin(l, x, _, _, r) => Spine(l) + [x] + Spine(r)
  }

  ghost function Keys<K>(t: Tree<K>): seq<K> {
    match t
    case Nil => []
    case Bin(l, _, _, k, r) => Keys(l) + [k] + Keys(r)
  }

  // The nodes (keys) that come before and after the hole.
  ghost function SpineBefore<K>(c: Ctx<K>): seq<Node<K>> {
    match c
    case Top => []
    case Hole(up, s, x, _, _, sib) => if s == Left then SpineBefore(up) else SpineBefore(up) + Spine(sib) + [x]
  }

  ghost function SpineAfter<K>(c: Ctx<K>): seq<Node<K>> {
    match c
    case Top => []
    case Hole(up, s, x, _, _, sib) => if s == Right then SpineAfter(up) else [x] + Spine(sib) + SpineAfter(up)
  }

  ghost function KeysBefore<K>(c: Ctx<K>): seq<K> {
    match c
    case Top => []
    case Hole(up, s, _, _, k, sib) => if s == Left then KeysBefore(up) else KeysBefore(up) + Keys(sib) + [k]
  }

  ghost function KeysAfter<K>(c: Ctx<K>): seq<K> {
    match c
    case Top => []
    case Hole(up, s, _, _, k, sib) => if s == Right then KeysAfter(up) else [k] + Keys(sib) + KeysAfter(up)
  }

  lemma {:induction false} PlugInOrder<K>(c: Ctx<K>, t: Tree<K>)
    ensures Spine(Plug(c, t)) == SpineBefore(c) + Spine(t) + SpineAfter(c)
    ensures Keys(Plug(c, t)) == KeysBefore(c) + Keys(t) + KeysAfter(c)
  {
    match c
    case Top =>
    case Hole(up, s, x, col, k, sib) =>
      PlugInOrder(up, Join(s, t, x, col, k, sib));
      if s == Left {
        Regroup(SpineBefore(up), Spine(t), x, Spine(sib), SpineAfter(up));
        Regroup(KeysBefore(up), Keys(t), k, Keys(sib), KeysAfter(up));
      } else {
        Regroup(SpineBefore(up), Spine(sib), x, Spine(t), SpineAfter(up));
        Regroup(KeysBefore(up), Keys(sib), k, Keys(t), KeysAfter(up));
      }
  }

  lemma PlugSameOrder<K>(c: Ctx<K>, t: Tree<K>, u: Tree<K>)
    requires Spine(t) == Spine(u) && Keys(t) == Keys(u)
    ensures Spine(Plug(c, t)) == Spine(Plug(c, u)) && Keys(Plug(c, t)) == Keys(Plug(c, u))
  {
  }

  lemma Regroup<T>(a: seq<T>, l: seq<T>, x: T, r: seq<T>, d: seq<T>)
    ensures a + (l + [x] + r) + d == a + l + ([x] + r + d)
    ensures a + (l + [x] + r) + d == (a + l + [x]) + r + d
    ensures a + (l + [x] + r) + d == (a + l) + [x] + (r + d)
  {
  }

  lemma LeafInOrder<K>(x: Node<K>, c: Color, k: K)
    ensures Spine(Bin(Nil, x, c, k, Nil)) == [x] && Keys(Bin(Nil, x, c, k, Nil)) == [k]
    ensures Spine<K>(Nil) == [] && Keys<K>(Nil) == []
  {
  }

  lemma SpineKeysLength<K>(t: Tree<K>)
    ensures |Spine(t)| == |Keys(t)|
  {
  }

  lemma CtxSpineKeysLength<K>(c: Ctx<K>)
    ensures |SpineBefore(c)| == |KeysBefore(c)| && |SpineAfter(c)| == |KeysAfter(c)|
  {
    match c
    case Top =>
    case Hole(_, _, _, _, _, sib) => SpineKeysLength(sib);
  }

  // Two contexts that place the same nodes and keys around the hole.
  ghost predicate SameOrder<K>(c: Ctx<K>, d: Ctx<K>) {
    && SpineBefore(c) == SpineBefore(d) && SpineAfter(c) == SpineAfter(d)
    && KeysBefore(c) == KeysBefore(d) && KeysAfter(c) == KeysAfter(d)
  }

  // ----- colours and black heights -----

  // A missing child counts as black.
  ghost function RootColor<K>(t: Tree<K>): Color {
    if t.Nil? then Black else t.color
  }

  // No red node has a red child and every path down meets h black nodes.
  ghost predicate Balanced<K>(t: Tree<K>, h: nat) {
    match t
    case Nil => h == 0
    case Bin(l, _, c, _, r) =>
      if c == Black then h > 0 && Balanced(l, h - 1) && Balanced(r, h - 1)
      else Balanced(l, h) && Balanced(r, h) && RootColor(l) == Black && RootColor(r) == Black
  }

  // The hole may be filled by a tree with a red root.
  ghost predicate TakesRed<K>(c: Ctx<K>) {
    c.Hole? && c.color == Black
  }

  // Filling the hole with a tree of black height h gives a red-black tree, as long as
  // a red root only goes where TakesRed allows one.
  ghost predicate CtxBalanced<K>(c: Ctx<K>, h: nat) {
    match c
    case Top => true
    case Hole(up, _, _, col, _, sib) =>
      && Balanced(sib, h)
      && if col == Black then CtxBalanced(up, h + 1)
         else RootColor(sib) == Black && TakesRed(up) && CtxBalanced(up, h)
  }

  // The number of black nodes above the hole: what the erase cases climb along.
  ghost function BlackDepth<K>(c: Ctx<K>): nat {
    match c
    case Top => 0
    case Hole(up, _, _, col, _, _) => BlackDepth(up) + if col == Black then 1 else 0
  }

  ghost predicate RedBlackTree<K>(t: Tree<K>) {
    RootColor(t) == Black && exists h: nat :: Balanced(t, h)
  }

  lemma {:induction false} PlugBalanced<K>(c: Ctx<K>, t: Tree<K>, h: nat)
    requires CtxBalanced(c, h) && Balanced(t, h)
    requires RootColor(t) == Red ==> TakesRed(c)
    ensures RedBlackTree(Plug(c, t))
  {
    match c
    case Top => assert Balanced(t, h);
    case Hole(up, s, x, col, k, sib) =>
      PlugBalanced(up, Join(s, t, x, col, k, sib), if col == Black then h + 1 else h);
  }

  // Every subtree of a red-black tree sits in a balanced context.
  lemma {:induction false} CtxIsBalanced<K>(c: Ctx<K>, t: Tree<K>) returns (h: nat)
    requires RedBlackTree(Plug(c, t))
    ensures CtxBalanced(c, h) && Balanced(t, h) && (RootColor(t) == Red ==> TakesRed(c))
  {
    match c
    case Top => h :| Balanced(t, h);
    case Hole(up, s, x, col, k, sib) =>
      h := CtxIsBalanced(up, Join(s, t, x, col, k, sib));
      if col == Black {
        h := h - 1;
      }
  }

  // ----- descending in search of a key -----

  // The context of the root's child on side `s`.
  ghost function Down<K>(c: Ctx<K>, t: Tree<K>, s: Side): Ctx<K>
    requires t.Bin?
  {
    Hole(c, s, t.node, t.color, t.key, Child(t, Other(s)))
  }

  // The key belongs in the hole: below all keys after it and above all before it.
  ghost predicate Brackets<K>(cmp: (K, K) -> int, c: Ctx<K>, k: K) {
    Between(cmp, KeysBefore(c), k, KeysAfter(c))
  }

  lemma KeysAround<K>(c: Ctx<K>, t: Tree<K>)
    requires t.Bin?
    ensures Keys(Plug(c, t)) == (KeysBefore(c) + Keys(t.left)) + [t.key] + (Keys(t.right) + KeysAfter(c))
    ensures Spine(Plug(c, t)) == (SpineBefore(c) + Spine(t.left)) + [t.node] + (Spine(t.right) + SpineAfter(c))
  {
    hide SpineBefore, SpineAfter, KeysBefore, KeysAfter, Plug;
    PlugInOrder(c, t);
    Regroup(KeysBefore(c), Keys(t.left), t.key, Keys(t.right), KeysAfter(c));
    Regroup(SpineBefore(c), Spine(t.left), t.node, Spine(t.right), SpineAfter(c));
  }

  lemma DownKeys<K>(c: Ctx<K>, t: Tree<K>)
    requires t.Bin?
    ensures KeysBefore(Down(c, t, Left)) == KeysBefore(c)
    ensures KeysAfter(Down(c, t, Left)) == [t.key] + Keys(t.right) + KeysAfter(c)
    ensures KeysBefore(Down(c, t, Right)) == KeysBefore(c) + Keys(t.left) + [t.key]
    ensures KeysAfter(Down(c, t, Right)) == KeysAfter(c)
    ensures Plug(Down(c, t, Left), t.left) == Plug(Down(c, t, Right), t.right) == Plug(c, t)
  {
  }

  // The subtrees' keys lie on their sides of the root's.
  lemma RootBetween<K(!new)>(cmp: (K, K) -> int, c: Ctx<K>, t: Tree<K>)
    requires IsOrder(cmp) && Sorted(cmp, Keys(Plug(c, t))) && t.Bin?
    ensures Between(cmp, Keys(t.left), t.key, Keys(t.right))
  {
    hide IsOrder, Sorted, Plug, Keys, KeysBefore, KeysAfter;
    var a, b := KeysBefore(c) + Keys(t.left), Keys(t.right) + KeysAfter(c);
    KeysAround(c, t);
    SortedBetween(cmp, a, t.key, b);
    assert forall x :: x in Keys(t.left) ==> x in a;
    assert forall x :: x in Keys(t.right) ==> x in b;
  }

  lemma StepDown<K(!new)>(cmp: (K, K) -> int, k: K, c: Ctx<K>, t: Tree<K>)
    requires IsOrder(cmp) && Sorted(cmp, Keys(Plug(c, t))) && t.Bin? && Brackets(cmp, c, k)
    ensures cmp(k, t.key) < 0 ==> Brackets(cmp, Down(c, t, Left), k)
    ensures cmp(k, t.key) > 0 ==> Brackets(cmp, Down(c, t, Right), k)
    ensures Plug(Down(c, t, Left), t.left) == Plug(Down(c, t, Right), t.right) == Plug(c, t)
  {
    hide IsOrder, Sorted, Plug, Keys, KeysBefore, KeysAfter, Down;
    DownKeys(c, t);
    RootBetween(cmp, c, t);
    if cmp(k, t.key) < 0 {
      forall x | x in Keys(t.right) ensures cmp(k, x) < 0 {
        Before(cmp, k, t.key, x);
      }
    }
    if cmp(k, t.key) > 0 {
      forall x | x in Keys(t.left) ensures cmp(x, k) < 0 {
        Before(cmp, x, t.key, k);
      }
      Flip(cmp, k, t.key);
    }
  }

  lemma RekeyInOrder<K>(c: Ctx<K>, t: Tree<K>, k: K, i: nat)
    requires t.Bin? && i == |SpineBefore(c)| + |Spine(t.left)|
    ensures Spine(Plug(c, t.(key := k))) == Spine(Plug(c, t))
    ensures i < |Keys(Plug(c, t))| && Keys(Plug(c, t))[i] == t.key
    ensures Keys(Plug(c, t.(key := k))) == Keys(Plug(c, t))[i := k]
  {
    hide Plug, SpineBefore, SpineAfter, KeysBefore, KeysAfter, Spine, Keys;
    KeysAround(c, t);
    KeysAround(c, t.(key := k));
    CtxSpineKeysLength(c);
    SpineKeysLength(t.left);
  }

  // A node with at most one child: only a black one has a child, and that child is red.
  lemma OnlyChild<K>(t: Tree<K>, d: Tree<K>, h: nat)
    requires t.Bin? && Balanced(t, h) && (t.left.Nil? || t.right.Nil?) && d == (if t.right.Bin? then t.right else t.left)
    ensures t.color == Black ==> h == 1 && Balanced(d, 0)
    ensures t.color == Red ==> d.Nil? && Balanced(d, h)
    ensures Spine(d) == Spine(t.left) + Spine(t.right) && Keys(d) == Keys(t.left) + Keys(t.right)
  {
  }

  lemma BlackenedBalanced<K>(t: Tree<K>, h: nat) returns (g: nat)
    requires t.Bin? && Balanced(t, h)
    ensures Balanced(t.(color := Black), g) && Spine(t.(color := Black)) == Spine(t) && Keys(t.(color := Black)) == Keys(t)
  {
    g := if t.color == Red then h + 1 else h;
  }

  // Taking a node with at most one child out of the order.
  lemma RemovedInOrder<K>(c: Ctx<K>, t: Tree<K>, d: Ctx<K>, u: Tree<K>, i: nat)
    requires t.Bin? && SameOrder(c, d) && i == |SpineBefore(c)| + |Spine(t.left)|
    requires Spine(u) == Spine(t.left) + Spine(t.right) && Keys(u) == Keys(t.left) + Keys(t.right)
    ensures i < |Spine(Plug(c, t))| == |Keys(Plug(c, t))|
    ensures Spine(Plug(d, u)) == RemoveAt(Spine(Plug(c, t)), i)
    ensures Keys(Plug(d, u)) == RemoveAt(Keys(Plug(c, t)), i)
  {
    hide Plug, SpineBefore, SpineAfter, KeysBefore, KeysAfter, Spine, Keys, RemoveAt;
    KeysAround(c, t);
    PlugInOrder(d, u);
    CtxSpineKeysLength(c);
    SpineKeysLength(t.left);
    SpineKeysLength(Plug(c, t));
    InsertAtSeam(SpineBefore(c) + Spine(t.left), Spine(t.right) + SpineAfter(c), t.node);
    InsertAtSeam(KeysBefore(c) + Keys(t.left), Keys(t.right) + KeysAfter(c), t.key);
  }

  // The hole separates the keys below `k` from those above it; keys equal to `k` are
  // after the hole when `low` is 0, before it when `low` is 1.
  ghost predicate Splits<K>(cmp: (K, K) -> int, c: Ctx<K>, k: K, low: int) {
    && (forall x :: x in KeysBefore(c) ==> cmp(x, k) < low)
    && (forall x :: x in KeysAfter(c) ==> cmp(k, x) < 1 - low)
  }

  lemma StepSplit<K(!new)>(cmp: (K, K) -> int, k: K, c: Ctx<K>, t: Tree<K>, low: int)
    requires IsOrder(cmp) && Sorted(cmp, Keys(Plug(c, t))) && t.Bin? && Splits(cmp, c, k, low) && 0 <= low <= 1
    ensures cmp(k, t.key) < 1 - low ==> Splits(cmp, Down(c, t, Left), k, low)
    ensures cmp(k, t.key) >= 1 - low ==> Splits(cmp, Down(c, t, Right), k, low)
    ensures Plug(Down(c, t, Left), t.left) == Plug(Down(c, t, Right), t.right) == Plug(c, t)
  {
    hide IsOrder, Sorted, Plug, Keys, KeysBefore, KeysAfter, Down;
    DownKeys(c, t);
    RootBetween(cmp, c, t);
    if cmp(k, t.key) < 1 - low {
      forall x | x in Keys(t.right) ensures cmp(k, x) < 1 - low {
        Before(cmp, k, t.key, x);
      }
    } else {
      forall x | x in Keys(t.left) ensures cmp(x, k) < low {
        Before(cmp, x, t.key, k);
      }
      Flip(cmp, k, t.key);
    }
  }

  lemma SplitAt<K(!new)>(cmp: (K, K) -> int, c: Ctx<K>, k: K, low: int)
    requires Splits(cmp, c, k, low)
    ensures var s, i := Keys(Plug(c, Nil)), |KeysBefore(c)|;
      && i <= |s| == |Spine(Plug(c, Nil))|
      && (forall j :: 0 <= j < i ==> cmp(s[j], k) < low)
      && (forall j :: i <= j < |s| ==> cmp(k, s[j]) < 1 - low)
    ensures var s, i := Spine(Plug(c, Nil)), |KeysBefore(c)|;
      i <= |s| && s[i..] == SpineAfter(c)
  {
    PlugInOrder(c, Nil);
    CtxSpineKeysLength(c);
    hide KeysBefore, KeysAfter, SpineBefore, SpineAfter, Plug;
    var s, i := Keys(Plug(c, Nil)), |KeysBefore(c)|;
    assert forall j :: 0 <= j < i ==> s[j] == KeysBefore(c)[j] && s[j] in KeysBefore(c);
    assert forall j :: i <= j < |s| ==> s[j] == KeysAfter(c)[j - i] && s[j] in KeysAfter(c);
  }

  lemma TopPlaces<K>(cmp: (K, K) -> int, k: K, low: int)
    ensures Brackets(cmp, Top, k) && Splits(cmp, Top, k, low)
    ensures SpineAfter<K>(Top) == []
  {
  }

  // The last node of the left subtree comes right before the root.
  lemma BeforeRoot<K>(c: Ctx<K>, t: Tree<K>, d: Ctx<K>, u: Tree<K>)
    requires t.Bin? && u.Bin? && u.right.Nil? && Plug(c, t) == Plug(d, u)
    requires |SpineAfter(d)| == |SpineAfter(Down(c, t, Left))|
    ensures var i := |SpineBefore(c)| + |Spine(t.left)|;
      0 < i < |Spine(Plug(c, t))| && Spine(Plug(c, t))[i - 1] == u.node
  {
    hide Plug;
    KeysAround(c, t);
    KeysAround(d, u);
    assert |SpineAfter(Down(c, t, Left))| == 1 + |Spine(t.right)| + |SpineAfter(c)|;
  }

  // Changing a key leaves the colours alone.
  lemma RekeyBalanced<K>(c: Ctx<K>, t: Tree<K>, k: K)
    requires t.Bin? && RedBlackTree(Plug(c, t))
    ensures RedBlackTree(Plug(c, t.(key := k)))
  {
    var h := CtxIsBalanced(c, t);
    PlugBalanced(c, t.(key := k), h);
  }

  // ----- what the insertion cases build -----

  // The parent and the red uncle turn black, the grandparent red.
  ghost function Recolored<K>(c: Ctx<K>, t: Tree<K>): Tree<K>
    requires c.Hole? && c.up.Hole? && c.up.sib.Bin?
  {
    var g := c.up;
    Join(g.side, Join(c.side, t, c.node, Black, c.key, c.sib), g.node, Red, g.key, g.sib.(color := Black))
  }

  lemma RecoloredBalanced<K>(c: Ctx<K>, t: Tree<K>, h: nat)
    requires c.Hole? && c.color == Red && CtxBalanced(c, h) && Balanced(t, h) && RootColor(c.up.sib) == Red
    ensures Balanced(Recolored(c, t), h + 1) && CtxBalanced(c.up.up, h + 1) && Recolored(c, t).color == Red
    ensures Spine(Plug(c.up.up, Recolored(c, t))) == Spine(Plug(c, t))
    ensures Keys(Plug(c.up.up, Recolored(c, t))) == Keys(Plug(c, t))
  {
    var g := c.up;
    PlugSameOrder(g.up, Recolored(c, t), Join(g.side, Join(c.side, t, c.node, c.color, c.key, c.sib), g.node, g.color, g.key, g.sib));
  }

  // Inner grandchild: the node was rotated above its parent, which is now the focus.
  ghost function OuterCtx<K>(c: Ctx<K>, t: Tree<K>): Ctx<K>
    requires c.Hole? && c.up.Hole? && t.Bin?
  {
    Hole(c.up, c.up.side, t.node, t.color, t.key, Child(t, Other(c.up.side)))
  }

  ghost function OuterTree<K>(c: Ctx<K>, t: Tree<K>): Tree<K>
    requires c.Hole? && c.up.Hole? && t.Bin?
  {
    Join(c.up.side, c.sib, c.node, c.color, c.key, Child(t, c.up.side))
  }

  lemma OuterBalanced<K>(c: Ctx<K>, t: Tree<K>, h: nat)
    requires c.Hole? && c.color == Red && c.up.Hole? && c.side != c.up.side
    requires CtxBalanced(c, h) && Balanced(t, h) && RootColor(t) == Red
    ensures CtxBalanced(OuterCtx(c, t), h) && Balanced(OuterTree(c, t), h)
  {
  }

  lemma OuterInOrder<K>(c: Ctx<K>, t: Tree<K>)
    requires c.Hole? && c.up.Hole? && c.side != c.up.side && t.Bin?
    ensures Spine(Plug(OuterCtx(c, t), OuterTree(c, t))) == Spine(Plug(c, t))
    ensures Keys(Plug(OuterCtx(c, t), OuterTree(c, t))) == Keys(Plug(c, t))
  {
    JoinTwist(c.side, t, c.node, c.color, c.key, c.sib, t.color, c.color);
    PlugSameOrder(c.up, Join(c.side, t, c.node, c.color, c.key, c.sib),
      Join(c.up.side, OuterTree(c, t), t.node, t.color, t.key, Child(t, Other(c.up.side))));
  }

  // A rotation does not change the order, whatever it does to the colours.
  lemma JoinTwist<K>(s: Side, t: Tree<K>, x: Node<K>, c: Color, k: K, sib: Tree<K>, c1: Color, c2: Color)
    requires t.Bin?
    ensures var u := Join(s, Child(t, s), t.node, c1, t.key, Join(s, Child(t, Other(s)), x, c2, k, sib));
      Spine(u) == Spine(Join(s, t, x, c, k, sib)) && Keys(u) == Keys(Join(s, t, x, c, k, sib))
  {
    hide SpineBefore, SpineAfter, KeysBefore, KeysAfter, Plug, Balanced;
    var n, m := t.node, t.key;
    if s == Right {
      Twist(Spine(sib), x, Spine(t.left), n, Spine(t.right));
      Twist(Keys(sib), k, Keys(t.left), m, Keys(t.right));
    } else {
      Twist(Spine(t.left), n, Spine(t.right), x, Spine(sib));
      Twist(Keys(t.left), m, Keys(t.right), k, Keys(sib));
    }
  }

  lemma Twist<T>(a: seq<T>, x: T, b: seq<T>, y: T, d: seq<T>)
    ensures a + [x] + (b + [y] + d) == (a + [x] + b) + [y] + d
  {
  }

  // Outer grandchild: the black parent on top, the red grandparent under it.
  ghost function Raised<K>(c: Ctx<K>, t: Tree<K>): Tree<K>
    requires c.Hole? && c.up.Hole?
  {
    var g := c.up;
    Join(g.side, t, c.node, Black, c.key, Join(g.side, c.sib, g.node, Red, g.key, g.sib))
  }

  lemma RaisedBalanced<K>(c: Ctx<K>, t: Tree<K>, h: nat)
    requires c.Hole? && c.color == Red && c.up.Hole? && c.side == c.up.side
    requires CtxBalanced(c, h) && Balanced(t, h) && RootColor(c.up.sib) == Black
    ensures RedBlackTree(Plug(c.up.up, Raised(c, t)))
  {
    PlugBalanced(c.up.up, Raised(c, t), h + 1);
  }

  lemma RaisedInOrder<K>(c: Ctx<K>, t: Tree<K>)
    requires c.Hole? && c.up.Hole? && c.side == c.up.side
    ensures Spine(Plug(c.up.up, Raised(c, t))) == Spine(Plug(c, t))
    ensures Keys(Plug(c.up.up, Raised(c, t))) == Keys(Plug(c, t))
  {
    var g := c.up;
    JoinTwist(g.side, Join(c.side, t, c.node, c.color, c.key, c.sib), g.node, g.color, g.key, g.sib, Black, Red);
    PlugSameOrder(g.up, Raised(c, t), Join(g.side, Join(c.side, t, c.node, c.color, c.key, c.sib), g.node, g.color, g.key, g.sib));
  }

  // ----- what the erasure cases build -----

  // The red sibling on top and black, the parent red beneath it.
  ghost function SiblingRaised<K>(c: Ctx<K>): Ctx<K>
    requires c.Hole? && c.sib.Bin?
  {
    var s := c.sib;
    Hole(Hole(c.up, c.side, s.node, Black, s.key, Child(s, Other(c.side))), c.side, c.node, Red, c.key, Child(s, c.side))
  }

  lemma SiblingRaisedBalanced<K>(c: Ctx<K>, h: nat)
    requires c.Hole? && CtxBalanced(c, h) && RootColor(c.sib) == Red
    ensures CtxBalanced(SiblingRaised(c), h) && BlackDepth(SiblingRaised(c)) == BlackDepth(c)
    ensures RootColor(SiblingRaised(c).sib) == Black
  {
  }

  lemma SiblingRaisedInOrder<K>(c: Ctx<K>)
    requires c.Hole? && c.sib.Bin?
    ensures SameOrder(c, SiblingRaised(c))
  {
    var s := c.sib;
    if c.side == Left {
      Regroup([c.node], Spine(s.left), s.node, Spine(s.right), SpineAfter(c.up));
      Regroup([c.key], Keys(s.left), s.key, Keys(s.right), KeysAfter(c.up));
    } else {
      Regroup(SpineBefore(c.up), Spine(s.left), s.node, Spine(s.right), [c.node]);
      Regroup(KeysBefore(c.up), Keys(s.left), s.key, Keys(s.right), [c.key]);
    }
  }

  // The sibling, red now, makes up for the missing black node below the hole.
  ghost function SiblingReddened<K>(c: Ctx<K>): Ctx<K>
    requires c.Hole? && c.sib.Bin?
  {
    c.(color := Black, sib := c.sib.(color := Red))
  }

  ghost predicate BlackNephews<K>(sib: Tree<K>) {
    sib.Bin? ==> RootColor(sib.left) == Black && RootColor(sib.right) == Black
  }

  // The sibling's near child, red, on top of the sibling; their colours swapped.
  ghost function NearRaised<K>(c: Ctx<K>): Ctx<K>
    requires c.Hole? && c.sib.Bin? && Child(c.sib, c.side).Bin?
  {
    var s, o := c.sib, Other(c.side);
    var n := Child(s, c.side);
    c.(sib := Join(c.side, Child(n, c.side), n.node, Black, n.key,
                   Join(c.side, Child(n, o), s.node, Red, s.key, Child(s, o))))
  }

  lemma NearRaisedBalanced<K>(c: Ctx<K>, h: nat)
    requires c.Hole? && CtxBalanced(c, h) && RootColor(c.sib) == Black && c.sib.Bin?
    requires RootColor(Child(c.sib, c.side)) == Red && RootColor(Child(c.sib, Other(c.side))) == Black
    ensures CtxBalanced(NearRaised(c), h) && RootColor(NearRaised(c).sib) == Black
    ensures RootColor(Child(NearRaised(c).sib, Other(c.side))) == Red
  {
    assert Balanced(Child(c.sib, c.side), h - 1);
  }

  lemma NearRaisedInOrder<K>(c: Ctx<K>)
    requires c.Hole? && c.sib.Bin? && Child(c.sib, c.side).Bin?
    ensures SameOrder(c, NearRaised(c))
  {
    var s := c.sib;
    JoinTwist(c.side, Child(s, c.side), s.node, s.color, s.key, Child(s, Other(c.side)), Black, Red);
    assert s == Join(c.side, Child(s, c.side), s.node, s.color, s.key, Child(s, Other(c.side)));
  }

  // The sibling takes over the parent's place and colour; parent and far nephew turn black.
  ghost function FarRaised<K>(c: Ctx<K>): Ctx<K>
    requires c.Hole? && c.sib.Bin? && Child(c.sib, Other(c.side)).Bin?
  {
    var s := c.sib;
    Hole(Hole(c.up, c.side, s.node, c.color, s.key, Child(s, Other(c.side)).(color := Black)),
         c.side, c.node, Black, c.key, Child(s, c.side))
  }

  lemma FarRaisedBalanced<K>(c: Ctx<K>, h: nat)
    requires c.Hole? && CtxBalanced(c, h + 1) && RootColor(c.sib) == Black && c.sib.Bin?
    requires RootColor(Child(c.sib, Other(c.side))) == Red
    ensures CtxBalanced(FarRaised(c), h) && TakesRed(FarRaised(c))
  {
    assert Balanced(Child(c.sib, Other(c.side)), h);
  }

  lemma FarRaisedInOrder<K>(c: Ctx<K>)
    requires c.Hole? && c.sib.Bin? && Child(c.sib, Other(c.side)).Bin?
    ensures SameOrder(c, FarRaised(c))
  {
    SiblingRaisedInOrder(c);
    var d := SiblingRaised(c);
    var far := Child(c.sib, Other(c.side));
    assert Spine(far.(color := Black)) == Spine(far) && Keys(far.(color := Black)) == Keys(far);
    assert FarRaised(c) == d.(color := Black, up := d.up.(color := c.color, sib := d.up.sib.(color := Black)));
  }

  // ----- height -----

  ghost function Height<K>(t: Tree<K>): nat {
    match t
    case Nil => 0
    case Bin(l, _, _, _, r) => 1 + if Height(l) < Height(r) then Height(r) else Height(l)
  }

  lemma {:induction false} BalancedHeight<K>(t: Tree<K>, h: nat)
    requires Balanced(t, h)
    ensures Height(t) <= 2 * h + (if RootColor(t) == Red then 1 else 0)
    ensures Pow2(h) <= |Keys(t)| + 1
  {
    match t
    case Nil =>
    case Bin(l, _, c, _, r) =>
      var g := if c == Black then h - 1 else h;
      BalancedHeight(l, g);
      BalancedHeight(r, g);
  }

  // steps <= 2 * log2(n + 1)
  ghost predicate WithinTwoLog(steps: nat, n: nat) {
    Pow2(steps) <= (n + 1) * (n + 1)
  }

  // A red-black tree of n keys is at most 2 * log2(n + 1) high.
  lemma HeightBound<K>(t: Tree<K>, steps: nat)
    requires RedBlackTree(t) && steps <= Height(t)
    ensures WithinTwoLog(steps, |Keys(t)|)
  {
    var h: nat :| Balanced(t, h);
    BalancedHeight(t, h);
    Pow2Monotone(steps, h + h);
    Pow2Add(h, h);
    SquareMonotone(Pow2(h), |Keys(t)| + 1);
  }

  lemma SquareMonotone(m: nat, n: nat)
    requires m <= n
    ensures m * m <= n * n
  {
    assert m * m <= m * n;
  }

  // ----- the checks that the set runs on itself in its debugging build -----

  // Property 4: a red node has black children and a black parent.
  ghost predicate VerifyProperty4<K>(t: Tree<K>, parent: Color) {
    t.Bin? ==>
      && (t.color == Red ==> RootColor(t.left) == Black && RootColor(t.right) == Black && parent == Black)
      && VerifyProperty4(t.left, t.color) && VerifyProperty4(t.right, t.color)
  }

  // Property 5 walks every path with a running count; the first path to end fixes the
  // count and any later path that disagrees makes the check fail (None).
  datatype PathCount = Unset | Set(count: nat) | Mismatch

  ghost function CountBlack<K>(t: Tree<K>, nodes: nat, inPath: PathCount): PathCount {
    var n := if RootColor(t) == Black then nodes + 1 else nodes;
    match t
    case Bin(l, _, _, _, r) => CountBlack(r, n, CountBlack(l, n, inPath))
    case Nil =>
      match inPath
      case Unset => Set(n)
      case Set(m) => if m == n then inPath else Mismatch
      case Mismatch => Mismatch
  }

  ghost predicate Verifies<K>(t: Tree<K>) {
    RootColor(t) == Black && VerifyProperty4(t, Black) && !CountBlack(t, 0, Unset).Mismatch?
  }

  lemma {:induction false} BalancedCounts<K>(t: Tree<K>, h: nat, nodes: nat, inPath: PathCount)
    requires Balanced(t, h)
    ensures CountBlack(t, nodes, inPath) ==
      match inPath
      case Unset => Set(nodes + h + 1)
      case Set(m) => if m == nodes + h + 1 then inPath else Mismatch
      case Mismatch => Mismatch
  {
    match t
    case Nil =>
    case Bin(l, _, c, _, r) =>
      var n, g := if c == Black then nodes + 1 else nodes, if c == Black then h - 1 else h;
      BalancedCounts(l, g, n, inPath);
      BalancedCounts(r, g, n, CountBlack(l, n, inPath));
  }

  lemma {:induction false} MismatchSticks<K>(t: Tree<K>, nodes: nat)
    ensures CountBlack(t, nodes, Mismatch).Mismatch?
  {
    if t.Bin? {
      var n := if t.color == Black then nodes + 1 else nodes;
      MismatchSticks(t.left, n);
      MismatchSticks(t.right, n);
    }
  }

  lemma {:induction false} CountsBalanced<K>(t: Tree<K>, parent: Color, nodes: nat, inPath: PathCount) returns (h: nat)
    requires VerifyProperty4(t, parent) && !CountBlack(t, nodes, inPath).Mismatch?
    ensures Balanced(t, h) && CountBlack(t, nodes, inPath) == Set(nodes + h + 1)
  {
    match t
    case Nil => h := 0;
    case Bin(l, _, c, _, r) =>
      var n := if c == Black then nodes + 1 else nodes;
      if CountBlack(l, n, inPath).Mismatch? {
        MismatchSticks(r, n);
        assert false;
      }
      var g := CountsBalanced(l, c, n, inPath);
      var f := CountsBalanced(r, c, n, CountBlack(l, n, inPath));
      BalancedCounts(r, f, n, CountBlack(l, n, inPath));
      h := if c == Black then g + 1 else g;
  }

  lemma {:induction false} BalancedProperty4<K>(t: Tree<K>, h: nat, parent: Color)
    requires Balanced(t, h) && (RootColor(t) == Red ==> parent == Black)
    ensures VerifyProperty4(t, parent)
  {
    match t
    case Nil =>
    case Bin(l, _, c, _, r) =>
      var g := if c == Black then h - 1 else h;
      BalancedProperty4(l, g, c);
      BalancedProperty4(r, g, c);
  }

  // The invariant proved of the set is exactly the one its own checks test.
  lemma VerifiesIffRedBlack<K>(t: Tree<K>)
    ensures Verifies(t) <==> RedBlackTree(t)
  {
    if RedBlackTree(t) {
      var h: nat :| Balanced(t, h);
      BalancedProperty4(t, h, Black);
      BalancedCounts(t, h, 0, Unset);
    }
    if Verifies(t) {
      var h := CountsBalanced(t, Black, 0, Unset);
    }
  }
}
