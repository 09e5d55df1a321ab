// The elementary edits of the link fields that rb_insert_color and rb_erase are
// made of. Each edit is given twice: as a change of cells, the way the source
// assigns them, and as a change of the tree at a focus. The lemmas say that the
// two agree.
module RbEdits {
  import opened Lists
  import opened RbShape

  // `*link = y` in the parent of x: the child field that pointed to x points to y.
  ghost function Redirect(cell: Cell, x: RbNode, y: RbNode?): Cell {
    if cell.left == x then cell.(left := y) else cell.(right := y)
  }

  lemma RedirectIsRelink(c: Ctx, t: Tree, m: Links, y: RbNode?)
    requires Shape(Plug(c, t), m) && t.Node? && !c.Top?
    ensures c.node in m && Redirect(m[c.node], t.node, y) == Relink(m[c.node], c, y)
  {
    Peek(c, t, m);
  }

  // ----- colours -----

  ghost function Painted(t: Tree, col: Color): Tree {
    if t.Leaf? then t else t.(color := col)
  }

  lemma PaintShape(c: Ctx, t: Tree, col: Color, m: Links)
    requires t.Node? && Shape(Plug(c, t), m)
    ensures t.node in m
    ensures Shape(Plug(c, Painted(t, col)), m[t.node := m[t.node].(color := col)])
    ensures Root(Plug(c, Painted(t, col))) == Root(Plug(c, t))
    ensures Inorder(Plug(c, Painted(t, col))) == Inorder(Plug(c, t))
  {
    Peek(c, t, m);
    Focus(c, t);
    InorderPlug(c, t);
    InorderPlug(c, Painted(t, col));
    RootOfPlug(c, t, Painted(t, col));
    forall n | n in Nodes(t) ensures m[n] == At(t, Parent(c), n) { FocusAt(c, t, n); }
    Swap(c, t, Painted(t, col), m, m[t.node := m[t.node].(color := col)]);
  }

  // ----- rotations -----

  ghost function RotatedLeft(t: Tree): Tree
    requires t.Node? && t.r.Node?
  {
    Node(Node(t.l, t.node, t.color, t.r.l), t.r.node, t.r.color, t.r.r)
  }

  ghost function RotatedRight(t: Tree): Tree
    requires t.Node? && t.l.Node?
  {
    Node(t.l.l, t.l.node, t.l.color, Node(t.l.r, t.node, t.color, t.r))
  }

  // x has the child y to rotate over, and the nodes touched are all different.
  ghost predicate CanRotate(m: Links, x: RbNode, y: RbNode?, b: RbNode?, q: RbNode?) {
    && x in m && y != null && y in m && y != x
    && (b != null ==> b in m && b != x && b != y)
    && (q != null ==> q in m && q != x && q != y && q != b && (m[q].left == x <==> m[q].right != x))
  }

  ghost predicate CanRotateLeft(m: Links, x: RbNode) {
    && x in m && m[x].right != null && m[x].right in m
    && CanRotate(m, x, m[x].right, m[m[x].right].left, m[x].parent)
  }

  ghost predicate CanRotateRight(m: Links, x: RbNode) {
    && x in m && m[x].left != null && m[x].left in m
    && CanRotate(m, x, m[x].left, m[m[x].left].right, m[x].parent)
  }

  ghost function RotateLeftAt(m: Links, x: RbNode, n: RbNode): Cell
    requires CanRotateLeft(m, x) && n in m
  {
    var y, q := m[x].right, m[x].parent;
    var b := m[y].left;
    if n == x then m[n].(right := b, parent := y)
    else if n == y then m[n].(left := x, parent := q)
    else if n == b then m[n].(parent := x)
    else if n == q then Redirect(m[n], x, y)
    else m[n]
  }

  ghost function RotateRightAt(m: Links, x: RbNode, n: RbNode): Cell
    requires CanRotateRight(m, x) && n in m
  {
    var y, q := m[x].left, m[x].parent;
    var b := m[y].right;
    if n == x then m[n].(left := b, parent := y)
    else if n == y then m[n].(right := x, parent := q)
    else if n == b then m[n].(parent := x)
    else if n == q then Redirect(m[n], x, y)
    else m[n]
  }

  lemma RotateLeftReady(c: Ctx, t: Tree, m: Links)
    requires t.Node? && t.r.Node? && Shape(Plug(c, t), m)
    ensures CanRotateLeft(m, t.node)
    ensures m[t.node].right == t.r.node && m[t.r.node].left == Root(t.r.l) && m[t.node].parent == Parent(c)
  {
    Peek(c, t, m);
    var c' := InRight(c, t.node, t.color, t.l);
    Peek(c', t.r, m);
    Peek(InLeft(c', t.r.node, t.r.color, t.r.r), t.r.l, m);
  }

  lemma RotateRightReady(c: Ctx, t: Tree, m: Links)
    requires t.Node? && t.l.Node? && Shape(Plug(c, t), m)
    ensures CanRotateRight(m, t.node)
    ensures m[t.node].left == t.l.node && m[t.l.node].right == Root(t.l.r) && m[t.node].parent == Parent(c)
  {
    Peek(c, t, m);
    var c' := InLeft(c, t.node, t.color, t.r);
    Peek(c', t.l, m);
    Peek(InRight(c', t.l.node, t.l.color, t.l.l), t.l.r, m);
  }

  lemma RotateLeftCell(c: Ctx, t: Tree, m: Links, n: RbNode)
    requires t.Node? && t.r.Node? && Shape(Plug(c, t), m) && n in Nodes(t)
    ensures CanRotateLeft(m, t.node) && n in m && n in Nodes(RotatedLeft(t))
    ensures RotateLeftAt(m, t.node, n) == At(RotatedLeft(t), Parent(c), n)
  {
    RotateLeftReady(c, t, m);
    Focus(c, t);
    FocusAt(c, t, n);
    RotatedLeftParts(t);
    if n in Nodes(t.r.l) {
      assert At(t.r, t.node, n) == At(t.r.l, t.r.node, n);
      assert At(RotatedLeft(t).l, t.r.node, n) == At(t.r.l, t.node, n);
    }
  }

  lemma RotateRightCell(c: Ctx, t: Tree, m: Links, n: RbNode)
    requires t.Node? && t.l.Node? && Shape(Plug(c, t), m) && n in Nodes(t)
    ensures CanRotateRight(m, t.node) && n in m && n in Nodes(RotatedRight(t))
    ensures RotateRightAt(m, t.node, n) == At(RotatedRight(t), Parent(c), n)
  {
    RotateRightReady(c, t, m);
    Focus(c, t);
    FocusAt(c, t, n);
    RotatedRightParts(t);
    if n in Nodes(t.l.r) {
      assert At(t.l, t.node, n) == At(t.l.r, t.l.node, n);
      assert At(RotatedRight(t).r, t.l.node, n) == At(t.l.r, t.node, n);
    }
  }

  lemma {:induction false} RotateLeftShape(c: Ctx, t: Tree, m: Links, m': Links)
    requires t.Node? && t.r.Node? && Shape(Plug(c, t), m) && CanRotateLeft(m, t.node)
    requires m'.Keys == m.Keys && forall n :: n in m ==> m'[n] == RotateLeftAt(m, t.node, n)
    ensures Shape(Plug(c, RotatedLeft(t)), m')
    ensures Inorder(Plug(c, RotatedLeft(t))) == Inorder(Plug(c, t))
    ensures Root(Plug(c, RotatedLeft(t))) == if c.Top? then t.r.node else Root(Plug(c, t))
  {
    var t' := RotatedLeft(t);
    Focus(c, t);
    RotateLeftReady(c, t, m);
    RotatedLeftParts(t);
    forall n | n in Nodes(t) ensures m'[n] == At(t', Parent(c), n) { RotateLeftCell(c, t, m, n); }
    if !c.Top? {
      RedirectIsRelink(c, t, m, t.r.node);
      RootOfPlug(c, t, t');
    }
    Swap(c, t, t', m, m');
    InorderPlug(c, t);
    InorderPlug(c, t');
  }

  lemma RotateRightShape(c: Ctx, t: Tree, m: Links, m': Links)
    requires t.Node? && t.l.Node? && Shape(Plug(c, t), m) && CanRotateRight(m, t.node)
    requires m'.Keys == m.Keys && forall n :: n in m ==> m'[n] == RotateRightAt(m, t.node, n)
    ensures Shape(Plug(c, RotatedRight(t)), m')
    ensures Inorder(Plug(c, RotatedRight(t))) == Inorder(Plug(c, t))
    ensures Root(Plug(c, RotatedRight(t))) == if c.Top? then t.l.node else Root(Plug(c, t))
  {
    var t' := RotatedRight(t);
    Focus(c, t);
    RotateRightReady(c, t, m);
    RotatedRightParts(t);
    forall n | n in Nodes(t) ensures m'[n] == At(t', Parent(c), n) { RotateRightCell(c, t, m, n); }
    if !c.Top? {
      RedirectIsRelink(c, t, m, t.l.node);
      RootOfPlug(c, t, t');
    }
    Swap(c, t, t', m, m');
    InorderPlug(c, t);
    InorderPlug(c, t');
  }

  lemma RotationKeepsOrder(a: Tree, x: RbNode, b: Tree, y: RbNode, d: Tree, xc: Color, yc: Color)
    ensures Inorder(Node(a, x, xc, Node(b, y, yc, d))) == Inorder(Node(Node(a, x, xc, b), y, yc, d))
  {
    assert Inorder(a) + [x] + (Inorder(b) + [y] + Inorder(d)) == (Inorder(a) + [x] + Inorder(b)) + [y] + Inorder(d);
  }

  lemma RotationKeepsNodes(a: Tree, x: RbNode, b: Tree, y: RbNode, d: Tree, xc: Color, yc: Color)
    ensures Nodes(Node(a, x, xc, Node(b, y, yc, d))) == Nodes(Node(Node(a, x, xc, b), y, yc, d))
  {}

  lemma RotationKeepsDistinct(a: Tree, x: RbNode, b: Tree, y: RbNode, d: Tree, xc: Color, yc: Color)
    ensures Distinct(Node(a, x, xc, Node(b, y, yc, d))) <==> Distinct(Node(Node(a, x, xc, b), y, yc, d))
  {
    assert Distinct(Node(b, y, yc, d)) <==>
      Distinct(b) && Distinct(d) && y !in Nodes(b) && y !in Nodes(d) && Nodes(b) !! Nodes(d);
    assert Distinct(Node(a, x, xc, b)) <==>
      Distinct(a) && Distinct(b) && x !in Nodes(a) && x !in Nodes(b) && Nodes(a) !! Nodes(b);
    assert Nodes(Node(b, y, yc, d)) == Nodes(b) + {y} + Nodes(d);
    assert Nodes(Node(a, x, xc, b)) == Nodes(a) + {x} + Nodes(b);
  }

  lemma RotatedLeftParts(t: Tree)
    requires t.Node? && t.r.Node?
    ensures Nodes(RotatedLeft(t)) == Nodes(t) && (Distinct(t) ==> Distinct(RotatedLeft(t)))
    ensures Inorder(RotatedLeft(t)) == Inorder(t)
  {
    RotationKeepsOrder(t.l, t.node, t.r.l, t.r.node, t.r.r, t.color, t.r.color);
    RotationKeepsNodes(t.l, t.node, t.r.l, t.r.node, t.r.r, t.color, t.r.color);
    RotationKeepsDistinct(t.l, t.node, t.r.l, t.r.node, t.r.r, t.color, t.r.color);
  }

  lemma RotatedRightParts(t: Tree)
    requires t.Node? && t.l.Node?
    ensures Nodes(RotatedRight(t)) == Nodes(t) && (Distinct(t) ==> Distinct(RotatedRight(t)))
    ensures Inorder(RotatedRight(t)) == Inorder(t)
  {
    RotationKeepsOrder(t.l.l, t.l.node, t.l.r, t.node, t.r, t.l.color, t.color);
    RotationKeepsNodes(t.l.l, t.l.node, t.l.r, t.node, t.r, t.l.color, t.color);
    RotationKeepsDistinct(t.l.l, t.l.node, t.l.r, t.node, t.r, t.l.color, t.color);
  }

  // ----- linking a leaf -----

  ghost function AttachAt(m: Links, x: RbNode, q: RbNode?, left: bool, n: RbNode): Cell
    requires n == x || n in m
  {
    if n == x then Cell(null, null, q, Red)
    else if n == q && left then m[n].(left := x)
    else if n == q then m[n].(right := x)
    else m[n]
  }

  lemma AttachShape(c: Ctx, x: RbNode, m: Links, m': Links)
    requires Shape(Plug(c, Leaf), m) && x !in m
    requires m'.Keys == m.Keys + {x} && forall n :: n in m' ==> m'[n] == AttachAt(m, x, Parent(c), c.InLeft?, n)
    ensures Shape(Plug(c, Node(Leaf, x, Red, Leaf)), m')
    ensures Root(Plug(c, Node(Leaf, x, Red, Leaf))) == if c.Top? then x else Root(Plug(c, Leaf))
    ensures Inorder(Plug(c, Node(Leaf, x, Red, Leaf))) == Before(c) + [x] + After(c)
  {
    Focus(c, Leaf);
    InorderPlug(c, Node(Leaf, x, Red, Leaf));
    assert Inorder(Node(Leaf, x, Red, Leaf)) == [x];
    Peek(c, Leaf, m);
    if !c.Top? {
      RootOfPlug(c, Leaf, Node(Leaf, x, Red, Leaf));
    }
    Swap(c, Leaf, Node(Leaf, x, Red, Leaf), m, m');
  }

  // ----- unlinking a node with at most one child -----

  ghost function OnlyChild(t: Tree): Tree
    requires t.Node? && (t.l.Leaf? || t.r.Leaf?)
  {
    if t.l.Leaf? then t.r else t.l
  }

  ghost function UnlinkAt(m: Links, x: RbNode, ch: RbNode?, n: RbNode): Cell
    requires x in m && n in m
  {
    if n == ch then m[n].(parent := m[x].parent)
    else if n == m[x].parent then Redirect(m[n], x, ch)
    else m[n]
  }

  ghost predicate CanUnlink(m: Links, x: RbNode, ch: RbNode?) {
    && x in m && (ch != null ==> ch in m && ch != x)
    && (m[x].parent != null ==> m[x].parent in m && m[x].parent != x && m[x].parent != ch)
  }

  lemma UnlinkShape(c: Ctx, t: Tree, m: Links, m': Links)
    requires t.Node? && (t.l.Leaf? || t.r.Leaf?) && Shape(Plug(c, t), m) && t.node in m
    requires m'.Keys == m.Keys - {t.node}
    requires forall n :: n in m' ==> m'[n] == UnlinkAt(m, t.node, Root(OnlyChild(t)), n)
    ensures Shape(Plug(c, OnlyChild(t)), m')
    ensures Root(Plug(c, OnlyChild(t))) == if c.Top? then Root(OnlyChild(t)) else Root(Plug(c, t))
  {
    var ch := OnlyChild(t);
    Focus(c, t);
    Peek(c, t, m);
    if !c.Top? {
      RedirectIsRelink(c, t, m, Root(ch));
      RootOfPlug(c, t, ch);
    }
    forall n | n in Nodes(ch) ensures m'[n] == At(ch, Parent(c), n) {
      FocusAt(c, t, n);
      AtRehung(ch, t.node, Parent(c), n);
    }
    forall n | n in Around(c) ensures n != Root(ch) {
      assert ch.Node? ==> ch.node in Nodes(t);
    }
    Swap(c, t, ch, m, m');
  }

  // ----- one node taking the place, colour and neighbours of another -----

  ghost function Renamed(t: Tree, y: RbNode): Tree
    requires t.Node?
  {
    t.(node := y)
  }

  ghost function ReplaceAt(m: Links, x: RbNode, y: RbNode, n: RbNode): Cell
    requires x in m && (n == y || n in m)
  {
    if n == y then m[x]
    else if n == m[x].left || n == m[x].right then m[n].(parent := y)
    else if n == m[x].parent then Redirect(m[n], x, y)
    else m[n]
  }

  lemma ReplaceShape(c: Ctx, t: Tree, y: RbNode, m: Links, m': Links)
    requires t.Node? && Shape(Plug(c, t), m) && y !in m && t.node in m
    requires m'.Keys == m.Keys - {t.node} + {y}
    requires forall n :: n in m' ==> m'[n] == ReplaceAt(m, t.node, y, n)
    ensures Shape(Plug(c, Renamed(t, y)), m')
    ensures Root(Plug(c, Renamed(t, y))) == if c.Top? then y else Root(Plug(c, t))
  {
    var t' := Renamed(t, y);
    Focus(c, t);
    Peek(c, t, m);
    if !c.Top? {
      RedirectIsRelink(c, t, m, y);
      RootOfPlug(c, t, t');
    }
    assert t.l.Node? ==> t.l.node in Nodes(t.l);
    assert t.r.Node? ==> t.r.node in Nodes(t.r);
    forall n | n in Nodes(t') ensures m'[n] == At(t', Parent(c), n) { ReplaceCell(c, t, y, m, n); }
    Swap(c, t, t', m, m');
  }

  lemma ReplaceCell(c: Ctx, t: Tree, y: RbNode, m: Links, n: RbNode)
    requires t.Node? && Shape(Plug(c, t), m) && y !in m && n in Nodes(Renamed(t, y))
    ensures t.node in m && (n == y || n in m) && ReplaceAt(m, t.node, y, n) == At(Renamed(t, y), Parent(c), n)
  {
    Focus(c, t);
    FocusAt(c, t, t.node);
    if n != y {
      FocusAt(c, t, n);
      if n in Nodes(t.l) {
        AtRehung(t.l, t.node, y, n);
      } else {
        AtRehung(t.r, t.node, y, n);
      }
    }
  }

  // ----- the successor taking the place of a node with two children -----

  // The cells after the successor y of x has been unlinked and put in the place of x.
  ghost function Promoted(m: Links, x: RbNode, y: RbNode): (m': Links)
    requires x in m && y in m && x != y
  {
    var m1 := map n | n in m && n != y :: UnlinkAt(m, y, m[y].right, n);
    map n | n in m && n != x :: ReplaceAt(m1, x, y, n)
  }

  // The same, assignment by assignment.
  lemma PromotedCell(m: Links, x: RbNode, y: RbNode, n: RbNode)
    requires CanPromote(m, x, y) && n in m && n != x
    ensures var l, r, p, q, ch := m[x].left, m[x].right, m[y].parent, m[x].parent, m[y].right;
      Promoted(m, x, y)[n] ==
        if n == y then Cell(l, if p == x then ch else r, q, m[x].color)
        else if n == l then m[n].(parent := y)
        else if n == ch then m[n].(parent := if p == x then y else p)
        else if n == q then Redirect(m[n], x, y)
        else if n == r && n == p then m[n].(left := ch, parent := y)
        else if n == r then m[n].(parent := y)
        else if n == p then m[n].(left := ch)
        else m[n]
  {}

  // x has two children, y is the leftmost node right of x, and the nodes
  // touched are as different as the source takes them to be.
  ghost predicate CanPromote(m: Links, x: RbNode, y: RbNode) {
    && x in m && y in m && x != y && m[y].left == null
    && (var l, r, p, q, ch := m[x].left, m[x].right, m[y].parent, m[x].parent, m[y].right;
      && l != null && l in m && l != x && l != y && l != r
      && r != null && r in m && r != x
      && p != null && p in m && p != y && p != l
      && (p == x <==> r == y) && (p != x ==> m[p].left == y)
      && (ch != null ==> ch in m && m[ch].parent == y && ch != x && ch != y && ch != p && ch != l && ch != r)
      && (q != null ==> q in m && q != x && q != y && q != l && q != r && q != p && q != ch)
      && (q != null ==> (m[q].left == x <==> m[q].right != x)))
  }

  lemma PromoteApart(c: Ctx, t: Tree)
    requires t.Node? && t.l.Node? && t.r.Node? && Distinct(Plug(c, t))
    ensures var base := InRight(c, t.node, t.color, t.l); var y, p := MinTree(t.r), MinCtx(base, t.r);
      && y.node in Nodes(t.r) && y.node !in Nodes(t.l) && y.node != t.node
      && !p.Top? && (p == base <==> t.r.l.Leaf?) && (t.r.l.Leaf? ==> y == t.r)
      && (p != base ==> p.InLeft? && p.node in Nodes(t.r) && p.node != y.node)
      && t.node !in Nodes(t.l) && t.node !in Nodes(t.r) && t.l.node in Nodes(t.l) && t.r.node in Nodes(t.r)
      && Nodes(t.l) !! Nodes(t.r)
      && (y.r.Node? ==> y.r.node in Nodes(t.r) && y.r.node != y.node && y.r.node != p.node && y.r.node != t.r.node)
      && (!c.Top? ==> c.node !in Nodes(t.l) && c.node !in Nodes(t.r) && c.node != t.node)
  {
    var base := InRight(c, t.node, t.color, t.l);
    var p, y := MinCtx(base, t.r), MinTree(t.r);
    Focus(c, t);
    MinPlug(base, t.r);
    MinParent(base, t.r);
    Focus(p, y);
    assert Distinct(t.r);
    assert !p.Top? ==> p.node in Around(p);
    assert y.r.Node? ==> y.r.node in Nodes(y.r) && y.r.node in Nodes(y);
  }

  lemma PromoteReady(c: Ctx, t: Tree, m: Links)
    requires t.Node? && t.l.Node? && t.r.Node? && Shape(Plug(c, t), m)
    ensures CanPromote(m, t.node, MinTree(t.r).node)
    ensures m[MinTree(t.r).node].right == Root(MinTree(t.r).r)
    ensures m[t.node].parent == Parent(c) && m[t.node].left == t.l.node && m[t.node].right == t.r.node
    ensures m[t.node].color == t.color
    ensures m[MinTree(t.r).node].color == MinTree(t.r).color
    ensures m[MinTree(t.r).node].parent == Parent(MinCtx(InRight(c, t.node, t.color, t.l), t.r))
  {
    var base := InRight(c, t.node, t.color, t.l);
    var c', y := MinCtx(base, t.r), MinTree(t.r);
    MinPlug(base, t.r);
    PromoteApart(c, t);
    Peek(c, t, m);
    Peek(base, t.r, m);
    Peek(InLeft(c, t.node, t.color, t.r), t.l, m);
    Peek(c', y, m);
    Peek(InRight(c', y.node, y.color, y.l), y.r, m);
  }

  // Where the leftmost node hangs.
  lemma {:induction false} MinParent(c: Ctx, t: Tree)
    requires t.Node? && Distinct(Plug(c, t))
    ensures MinTree(t).node in Nodes(t) && Nodes(MinTree(t)) <= Nodes(t)
    ensures t.l.Leaf? ==> MinCtx(c, t) == c && MinTree(t) == t
    ensures t.l.Node? ==> MinCtx(c, t).InLeft? && MinCtx(c, t).node in Nodes(t) && t.node !in Nodes(MinTree(t))
    decreases t
  {
    Focus(c, t);
    if t.l.Node? {
      MinParent(InLeft(c, t.node, t.color, t.r), t.l);
    }
  }

  // The focus below the promoted node, where a black node may be missing.
  ghost function Gap(c: Ctx, t: Tree): (Ctx, Tree)
    requires t.Node? && t.r.Node?
  {
    var y := MinTree(t.r);
    (MinCtx(InRight(c, y.node, t.color, t.l), t.r), y.r)
  }

  // The node above the gap: the promoted node itself, or the old parent of it.
  lemma GapEdge(c: Ctx, t: Tree)
    requires t.Node? && t.l.Node? && t.r.Node? && Distinct(Plug(c, t))
    ensures var base, y := InRight(c, t.node, t.color, t.l), MinTree(t.r).node;
      Parent(Gap(c, t).0) == if Parent(MinCtx(base, t.r)) == t.node then y else Parent(MinCtx(base, t.r))
  {
    var base := InRight(c, t.node, t.color, t.l);
    Focus(c, t);
    MinPlug(base, t.r);
    MinParent(base, t.r);
    if t.r.l.Node? {
      MinEdge(base, InRight(c, MinTree(t.r).node, t.color, t.l), t.r);
    }
  }

  // The node the leftmost node hangs under does not depend on what is above the subtree.
  lemma {:induction false} MinEdge(c: Ctx, c': Ctx, t: Tree)
    requires t.Node? && (t.l.Leaf? ==> Parent(c) == Parent(c'))
    ensures Parent(MinCtx(c, t)) == Parent(MinCtx(c', t))
    decreases t
  {
    if t.l.Node? {
      MinEdge(InLeft(c, t.node, t.color, t.r), InLeft(c', t.node, t.color, t.r), t.l);
    }
  }

  lemma PromoteShape(c: Ctx, t: Tree, m: Links, m': Links)
    requires t.Node? && t.l.Node? && t.r.Node? && Shape(Plug(c, t), m)
    requires CanPromote(m, t.node, MinTree(t.r).node) && m' == Promoted(m, t.node, MinTree(t.r).node)
    ensures var (c', t') := Gap(c, t);
      && Shape(Plug(c', t'), m')
      && Root(Plug(c', t')) == if c.Top? then MinTree(t.r).node else Root(Plug(c, t))
  {
    var x, y := t.node, MinTree(t.r);
    var rest := Node(t.l, x, t.color, WithoutMin(t.r));
    UnlinkSuccessor(c, t, m);
    var m1 := map n | n in m && n != y.node :: UnlinkAt(m, y.node, m[y.node].right, n);
    ReplaceShape(c, rest, y.node, m1, m');
    MinPlug(InRight(c, y.node, t.color, t.l), t.r);
    if !c.Top? { RootOfPlug(c, rest, t); }
  }

  lemma UnlinkSuccessor(c: Ctx, t: Tree, m: Links)
    requires t.Node? && t.l.Node? && t.r.Node? && Shape(Plug(c, t), m)
    requires CanPromote(m, t.node, MinTree(t.r).node)
    ensures var y := MinTree(t.r).node;
      Shape(Plug(c, Node(t.l, t.node, t.color, WithoutMin(t.r))),
            map n | n in m && n != y :: UnlinkAt(m, y, m[y].right, n))
  {
    var base, y := InRight(c, t.node, t.color, t.l), MinTree(t.r);
    MinPlug(base, t.r);
    PromoteReady(c, t, m);
    var m1 := map n | n in m && n != y.node :: UnlinkAt(m, y.node, m[y.node].right, n);
    UnlinkShape(MinCtx(base, t.r), y, m, m1);
  }

  lemma UnlinkOrder(c: Ctx, t: Tree)
    requires t.Node? && (t.l.Leaf? || t.r.Leaf?) && Distinct(Plug(c, t))
    ensures Inorder(Plug(c, OnlyChild(t))) == Without(Inorder(Plug(c, t)), t.node)
  {
    InorderPlug(c, OnlyChild(t));
    WithoutFocus(c, t);
    assert Inorder(OnlyChild(t)) == Inorder(t.l) + Inorder(t.r);
  }

  lemma PromoteOrder(c: Ctx, t: Tree)
    requires t.Node? && t.l.Node? && t.r.Node? && Distinct(Plug(c, t))
    ensures Inorder(Plug(Gap(c, t).0, Gap(c, t).1)) == Without(Inorder(Plug(c, t)), t.node)
  {
    var y := MinTree(t.r).node;
    var t' := Node(t.l, y, t.color, WithoutMin(t.r));
    MinPlug(InRight(c, y, t.color, t.l), t.r);
    InorderPlug(c, t');
    MinIsFirst(t.r);
    assert Inorder(t') == Inorder(t.l) + Inorder(t.r);
    WithoutFocus(c, t);
  }

  lemma {:induction false} PromotePlan(c: Ctx, t: Tree, m: Links)
    requires t.Node? && t.l.Node? && t.r.Node? && Shape(Plug(c, t), m)
    ensures var y, (c', t') := MinTree(t.r), Gap(c, t);
      && CanPromote(m, t.node, y.node)
      && m[y.node].right == Root(t') && m[y.node].color == y.color
      && Parent(c') == (if m[y.node].parent == t.node then y.node else m[y.node].parent)
      && Shape(Plug(c', t'), Promoted(m, t.node, y.node))
      && Nodes(Plug(c', t')) == Nodes(Plug(c, t)) - {t.node}
      && Root(Plug(c', t')) == (if m[t.node].parent == null then y.node else Root(Plug(c, t)))
      && Inorder(Plug(c', t')) == Without(Inorder(Plug(c, t)), t.node)
  {
    PromoteReady(c, t, m);
    PromoteShape(c, t, m, Promoted(m, t.node, MinTree(t.r).node));
    PromoteOrder(c, t);
    GapEdge(c, t);
  }

  lemma UnlinkPlan(c: Ctx, t: Tree, m: Links)
    requires t.Node? && (t.l.Leaf? || t.r.Leaf?) && Shape(Plug(c, t), m)
    ensures CanUnlink(m, t.node, Root(OnlyChild(t))) && m[t.node].parent == Parent(c)
    ensures Inorder(Plug(c, OnlyChild(t))) == Without(Inorder(Plug(c, t)), t.node)
  {
    Peek(c, t, m);
    Peek(InLeft(c, t.node, t.color, t.r), t.l, m);
    Peek(InRight(c, t.node, t.color, t.l), t.r, m);
    UnlinkOrder(c, t);
  }
}
