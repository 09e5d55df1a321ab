// struct rb_root and the operations of rbtree.c, in place on the linked nodes.
module RbTree {
  import opened Lists
  import opened RbShape
  import opened RbEdits
  import opened RbColor

  ghost function LinksOf(s: set<RbNode>): (m: Links)
    reads s`left, s`right, s`parent, s`color
    ensures m.Keys == s
  {
    map n | n in s :: n.Now()
  }

  lemma LinksAre(s: set<RbNode>, m: Links)
    requires m.Keys == s && forall n :: n in s ==> n.Now() == m[n]
    ensures LinksOf(s) == m
  {}

  class RbRoot {
    var rbNode: RbNode?
    ghost var tree: Tree
    ghost var nodes: set<RbNode>

    // The nodes reachable from rbNode, through their left, right, parent and
    // color fields, are exactly `tree`.
    ghost predicate Valid()
      reads this, nodes`left, nodes`right, nodes`parent, nodes`color
    {
      rbNode == Root(tree) && nodes == Nodes(tree) && Shape(tree, LinksOf(nodes))
    }

    constructor ()
      ensures Valid() && tree == Leaf
    {
      rbNode, tree, nodes := null, Leaf, {};
    }

    // What the heap says around a focus.
    lemma See(c: Ctx, t: Tree)
      requires Valid() && tree == Plug(c, t)
      ensures Nodes(tree) == Around(c) + Nodes(t)
      ensures t.Node? ==> t.node in Nodes(tree) && t.node.Now() == Cell(Root(t.l), Root(t.r), Parent(c), t.color)
      ensures !c.Top? ==> c.node in Nodes(tree) && c.node !in Nodes(t)
      ensures c.InLeft? ==> c.node.Now() == Cell(Root(t), Root(c.r), Parent(c.up), c.color)
      ensures c.InLeft? && t.Node? ==> Root(c.r) != t.node
      ensures c.InRight? ==> c.node.Now() == Cell(Root(c.l), Root(t), Parent(c.up), c.color)
      ensures c.InRight? && t.Node? ==> Root(c.l) != t.node
    {
      Focus(c, t);
      Peek(c, t, LinksOf(Nodes(tree)));
    }

    // ----- colours and rotations -----

    method Paint(node: RbNode, col: Color, ghost c: Ctx, ghost t: Tree)
      requires Valid() && tree == Plug(c, t) && t.Node? && t.node == node
      modifies this`tree, node`color
      ensures Valid()
      ensures tree == Plug(c, Painted(t, col)) && Nodes(tree) == old(Nodes(tree))
      ensures Inorder(tree) == old(Inorder(tree))
    {
      ghost var m := LinksOf(Nodes(tree));
      PaintShape(c, t, col, m);
      node.color := col;
      tree := Plug(c, Painted(t, col));
      assert LinksOf(m.Keys) == m[node := m[node].(color := col)];
    }

    method RotateLeftLinks(node: RbNode, ghost s: set<RbNode>)
      requires CanRotateLeft(LinksOf(s), node)
      modifies this`rbNode, s`left, s`right, s`parent, s`color
      ensures rbNode == if old(node.parent) == null then old(node.right) else old(rbNode)
      ensures forall n :: n in s ==> n.Now() == RotateLeftAt(old(LinksOf(s)), node, n)
    {
      ghost var m := LinksOf(s);
      assert m[node] == node.Now() && m[node.right] == node.right.Now();
      var right := node.right;
      var parent := node.parent;
      assert parent != null ==> m[parent] == parent.Now();
      node.right := right.left;
      if node.right != null {
        right.left.parent := node;
      }
      right.left := node;
      right.parent := parent;
      if parent != null {
        if node == parent.left {
          parent.left := right;
        } else {
          parent.right := right;
        }
      } else {
        rbNode := right;
      }
      node.parent := right;
    }

    method RotateLeft(node: RbNode, ghost c: Ctx, ghost t: Tree)
      requires Valid() && tree == Plug(c, t) && t.Node? && t.node == node && t.r.Node?
      modifies this, Nodes(tree)`left, Nodes(tree)`right, Nodes(tree)`parent, Nodes(tree)`color
      ensures Valid()
      ensures tree == Plug(c, RotatedLeft(t)) && Nodes(tree) == old(Nodes(tree))
      ensures Inorder(tree) == old(Inorder(tree))
    {
      ghost var m := LinksOf(Nodes(tree));
      RotateLeftReady(c, t, m);
      assert node.Now() == m[node];
      RotateLeftLinks(node, Nodes(tree));
      RotateLeftShape(c, t, m, LinksOf(m.Keys));
      tree := Plug(c, RotatedLeft(t));
    }

    method RotateRightLinks(node: RbNode, ghost s: set<RbNode>)
      requires CanRotateRight(LinksOf(s), node)
      modifies this`rbNode, s`left, s`right, s`parent, s`color
      ensures rbNode == if old(node.parent) == null then old(node.left) else old(rbNode)
      ensures forall n :: n in s ==> n.Now() == RotateRightAt(old(LinksOf(s)), node, n)
    {
      ghost var m := LinksOf(s);
      assert m[node] == node.Now() && m[node.left] == node.left.Now();
      var left := node.left;
      var parent := node.parent;
      assert parent != null ==> m[parent] == parent.Now();
      node.left := left.right;
      if node.left != null {
        left.right.parent := node;
      }
      left.right := node;
      left.parent := parent;
      if parent != null {
        if node == parent.right {
          parent.right := left;
        } else {
          parent.left := left;
        }
      } else {
        rbNode := left;
      }
      node.parent := left;
    }

    method RotateRight(node: RbNode, ghost c: Ctx, ghost t: Tree)
      requires Valid() && tree == Plug(c, t) && t.Node? && t.node == node && t.l.Node?
      modifies this, Nodes(tree)`left, Nodes(tree)`right, Nodes(tree)`parent, Nodes(tree)`color
      ensures Valid()
      ensures tree == Plug(c, RotatedRight(t)) && Nodes(tree) == old(Nodes(tree))
      ensures Inorder(tree) == old(Inorder(tree))
    {
      ghost var m := LinksOf(Nodes(tree));
      RotateRightReady(c, t, m);
      assert node.Now() == m[node];
      RotateRightLinks(node, Nodes(tree));
      RotateRightShape(c, t, m, LinksOf(m.Keys));
      tree := Plug(c, RotatedRight(t));
    }

    // ----- insertion -----

    // A red uncle: parent and uncle turn black, and the red moves up to gparent.
    method PushRedUp(parent: RbNode, uncle: RbNode, gparent: RbNode,
                     ghost up: Ctx, ghost p: Tree, ghost u: Tree, ghost left: bool)
      requires Valid() && p.Node? && p.node == parent && u.Node? && u.node == uncle
      requires tree == Plug(up, if left then Node(p, gparent, Black, u) else Node(u, gparent, Black, p))
      modifies this, Nodes(tree)`left, Nodes(tree)`right, Nodes(tree)`parent, Nodes(tree)`color
      ensures Valid() && Nodes(tree) == old(Nodes(tree)) && Inorder(tree) == old(Inorder(tree))
      ensures tree == Plug(up, if left then Node(Painted(p, Black), gparent, Red, Painted(u, Black))
                               else Node(Painted(u, Black), gparent, Red, Painted(p, Black)))
    {
      ghost var p', u' := Painted(p, Black), Painted(u, Black);
      Focus(up, if left then Node(p, gparent, Black, u) else Node(u, gparent, Black, p));
      Paint(uncle, Black, if left then InRight(up, gparent, Black, p) else InLeft(up, gparent, Black, p), u);
      Paint(parent, Black, if left then InLeft(up, gparent, Black, u') else InRight(up, gparent, Black, u'), p);
      Paint(gparent, Red, up, if left then Node(p', gparent, Black, u') else Node(u', gparent, Black, p'));
    }

    // A black uncle, with node, parent and gparent in line: parent takes the place of gparent.
    method LiftRight(parent: RbNode, gparent: RbNode, ghost up: Ctx, ghost p: Tree, ghost u: Tree)
      requires Valid() && p.Node? && p.node == parent
      requires tree == Plug(up, Node(p, gparent, Black, u))
      modifies this, Nodes(tree)`left, Nodes(tree)`right, Nodes(tree)`parent, Nodes(tree)`color
      ensures Valid() && Nodes(tree) == old(Nodes(tree)) && Inorder(tree) == old(Inorder(tree))
      ensures tree == Plug(up, Node(p.l, parent, Black, Node(p.r, gparent, Red, u)))
    {
      See(InLeft(up, gparent, Black, u), p);
      Paint(parent, Black, InLeft(up, gparent, Black, u), p);
      Paint(gparent, Red, up, Node(Painted(p, Black), gparent, Black, u));
      RotateRight(gparent, up, Node(Painted(p, Black), gparent, Red, u));
    }

    method LiftLeft(parent: RbNode, gparent: RbNode, ghost up: Ctx, ghost p: Tree, ghost u: Tree)
      requires Valid() && p.Node? && p.node == parent
      requires tree == Plug(up, Node(u, gparent, Black, p))
      modifies this, Nodes(tree)`left, Nodes(tree)`right, Nodes(tree)`parent, Nodes(tree)`color
      ensures Valid() && Nodes(tree) == old(Nodes(tree)) && Inorder(tree) == old(Inorder(tree))
      ensures tree == Plug(up, Node(Node(u, gparent, Red, p.l), parent, Black, p.r))
    {
      See(InRight(up, gparent, Black, u), p);
      Paint(parent, Black, InRight(up, gparent, Black, u), p);
      Paint(gparent, Red, up, Node(u, gparent, Black, Painted(p, Black)));
      RotateLeft(gparent, up, Node(u, gparent, Red, Painted(p, Black)));
    }

    // One round of the loop for a parent that is a left child.
    method InsertStepLeft(node0: RbNode, parent0: RbNode, gparent: RbNode, ghost c: Ctx, ghost t: Tree)
      returns (node: RbNode, ghost c': Ctx, ghost t': Tree)
      requires Valid() && tree == Plug(c, t) && t.Node? && t.node == node0
      requires Parent(c) == parent0 && c.up.InLeft? && c.up.node == gparent && c.up.color == Black
      modifies this, Nodes(tree)`left, Nodes(tree)`right, Nodes(tree)`parent, Nodes(tree)`color
      ensures Valid() && (c', t') == InsertRound(c, t) && tree == Plug(c', t') && node == Root(t')
      ensures Nodes(tree) == old(Nodes(tree)) && Inorder(tree) == old(Inorder(tree))
    {
      ghost var up, u, p := c.up.up, c.up.r, Joined(c, t);
      See(c, t);
      See(c.up, p);
      See(InRight(up, gparent, Black, p), u);
      c', t' := InsertRound(c, t).0, InsertRound(c, t).1;
      node := node0;
      var parent := parent0;
      var uncle := gparent.right;
      if uncle != null && uncle.color == Red {
        PushRedUp(parent, uncle, gparent, up, p, u, true);
        node := gparent;
      } else {
        if parent.right == node {
          RotateLeft(parent, c.up, p);
          p := RotatedLeft(p);
          parent, node := node, parent;
        }
        LiftRight(parent, gparent, up, p, u);
      }
    }

    // One round of the loop for a parent that is a right child.
    method InsertStepRight(node0: RbNode, parent0: RbNode, gparent: RbNode, ghost c: Ctx, ghost t: Tree)
      returns (node: RbNode, ghost c': Ctx, ghost t': Tree)
      requires Valid() && tree == Plug(c, t) && t.Node? && t.node == node0
      requires Parent(c) == parent0 && c.up.InRight? && c.up.node == gparent && c.up.color == Black
      modifies this, Nodes(tree)`left, Nodes(tree)`right, Nodes(tree)`parent, Nodes(tree)`color
      ensures Valid() && (c', t') == InsertRound(c, t) && tree == Plug(c', t') && node == Root(t')
      ensures Nodes(tree) == old(Nodes(tree)) && Inorder(tree) == old(Inorder(tree))
    {
      ghost var up, u, p := c.up.up, c.up.l, Joined(c, t);
      See(c, t);
      See(c.up, p);
      See(InLeft(up, gparent, Black, p), u);
      c', t' := InsertRound(c, t).0, InsertRound(c, t).1;
      node := node0;
      var parent := parent0;
      var uncle := gparent.left;
      if uncle != null && uncle.color == Red {
        PushRedUp(parent, uncle, gparent, up, p, u, false);
        node := gparent;
      } else {
        if parent.left == node {
          RotateRight(parent, c.up, p);
          p := RotatedRight(p);
          parent, node := node, parent;
        }
        LiftLeft(parent, gparent, up, p, u);
      }
    }

    // One round of the loop of rb_insert_color.
    method InsertStep(node0: RbNode, parent0: RbNode, ghost c: Ctx, ghost t: Tree)
      returns (node: RbNode, parent: RbNode?, ghost c': Ctx, ghost t': Tree)
      requires Valid() && tree == Plug(c, t) && RedFocus(c, t)
      requires node0 == t.node && parent0 == Parent(c) && !c.Top? && c.color == Red
      modifies this, Nodes(tree)`left, Nodes(tree)`right, Nodes(tree)`parent, Nodes(tree)`color
      ensures Valid() && tree == Plug(c', t') && RedFocus(c', t') && node == t'.node && Depth(c') < Depth(c)
      ensures parent == Parent(c') && (parent != null ==> parent in Nodes(tree) && parent.color == c'.color)
      ensures Nodes(tree) == old(Nodes(tree)) && Inorder(tree) == old(Inorder(tree))
    {
      InsertRoundSound(c, t);
      See(c, t);
      See(c.up, Joined(c, t));
      var gparent := parent0.parent;
      if parent0 == gparent.left {
        node, c', t' := InsertStepLeft(node0, parent0, gparent, c, t);
      } else {
        node, c', t' := InsertStepRight(node0, parent0, gparent, c, t);
      }
      See(c', t');
      parent := node.parent;
    }

    // rb_insert_color: node0 has just been linked as a red leaf.
    method InsertColor(node0: RbNode, ghost c0: Ctx)
      requires Valid() && tree == Plug(c0, Node(Leaf, node0, Red, Leaf)) && RedBlack(Plug(c0, Leaf))
      modifies this, Nodes(tree)`left, Nodes(tree)`right, Nodes(tree)`parent, Nodes(tree)`color
      ensures Valid() && RedBlack(tree)
      ensures Nodes(tree) == old(Nodes(tree)) && Inorder(tree) == old(Inorder(tree))
    {
      ghost var c, t := c0, Node(Leaf, node0, Red, Leaf);
      FitsPlug(c, Leaf);
      See(c, t);
      var node := node0;
      var parent := node.parent;
      while parent != null && parent.color == Red
        invariant Valid() && tree == Plug(c, t) && RedFocus(c, t) && node == t.node && parent == Parent(c)
        invariant parent != null ==> parent in Nodes(tree) && parent.color == c.color
        invariant Nodes(tree) == old(Nodes(tree)) && Inorder(tree) == old(Inorder(tree))
        decreases Depth(c)
      {
        node, parent, c, t := InsertStep(node, parent, c, t);
      }
      BlackenRoot(c, t);
    }

    // The last line of rb_insert_color: the only defect left may be a red root.
    method BlackenRoot(ghost c: Ctx, ghost t: Tree)
      requires Valid() && tree == Plug(c, t) && RedFocus(c, t) && (c.Top? || c.color == Black)
      modifies this, Nodes(tree)`color
      ensures Valid() && RedBlack(tree)
      ensures Nodes(tree) == old(Nodes(tree)) && Inorder(tree) == old(Inorder(tree))
    {
      See(c, t);
      if !c.Top? {
        FitsPlug(c, t);
        assert Painted(tree, Black) == tree;
      }
      Paint(rbNode, Black, Top, tree);
    }

    // ----- deletion -----

    // The hole is a left child and its sibling is red.
    method TurnSiblingLeft(parent: RbNode, other: RbNode, ghost c: Ctx, ghost t: Tree)
      requires Valid() && tree == Plug(c, t) && c.InLeft? && c.node == parent
      requires c.r.Node? && c.r.node == other && c.r.l.Node?
      modifies this, Nodes(tree)`left, Nodes(tree)`right, Nodes(tree)`parent, Nodes(tree)`color
      ensures Valid() && tree == Plug(Sideways(c), t) && parent.right == Root(c.r.l)
      ensures Nodes(tree) == old(Nodes(tree)) && Inorder(tree) == old(Inorder(tree))
    {
      See(c, t);
      See(InRight(c.up, parent, c.color, t), c.r);
      Paint(other, Black, InRight(c.up, parent, c.color, t), c.r);
      Paint(parent, Red, c.up, Node(t, parent, c.color, Painted(c.r, Black)));
      RotateLeft(parent, c.up, Node(t, parent, Red, Painted(c.r, Black)));
      See(Sideways(c), t);
    }

    // The hole is a left child and its black sibling has a red child.
    method RefillLeft(parent: RbNode, other0: RbNode, ghost c: Ctx, ghost t: Tree)
      requires Valid() && tree == Plug(c, t) && c.InLeft? && c.node == parent
      requires c.r.Node? && c.r.node == other0 && c.r.color == Black
      requires !(IsBlack(Near(c)) && IsBlack(Far(c)))
      modifies this, Nodes(tree)`left, Nodes(tree)`right, Nodes(tree)`parent, Nodes(tree)`color
      ensures Valid() && tree == Plug(c.up, Refilled(c, t))
      ensures Nodes(tree) == old(Nodes(tree)) && Inorder(tree) == old(Inorder(tree))
    {
      ghost var o := c.r;
      ghost var beside := InRight(c.up, parent, c.color, t);
      See(c, t);
      See(beside, o);
      See(InLeft(beside, o.node, Black, o.r), o.l);
      See(InRight(beside, o.node, Black, o.l), o.r);
      var other := other0;
      if other.right == null || other.right.color == Black {
        Paint(other.left, Black, InLeft(beside, o.node, Black, o.r), o.l);
        Paint(other, Red, beside, Node(Painted(o.l, Black), o.node, Black, o.r));
        RotateRight(other, beside, Node(Painted(o.l, Black), o.node, Red, o.r));
        o := FarRed(c);
        See(beside, o);
        See(beside.up, Node(t, parent, c.color, o));
        other := parent.right;
      }
      FinishRefillLeft(parent, other, c, t, o);
    }

    // The last steps of a round that ends the loop.
    method FinishRefillLeft(parent: RbNode, other: RbNode, ghost c: Ctx, ghost t: Tree, ghost o: Tree)
      requires Valid() && c.InLeft? && c.node == parent && o.Node? && o.node == other && o.r.Node?
      requires tree == Plug(c.up, Node(t, parent, c.color, o))
      modifies this, Nodes(tree)`left, Nodes(tree)`right, Nodes(tree)`parent, Nodes(tree)`color
      ensures Valid()
      ensures tree == Plug(c.up, RotatedLeft(Node(t, parent, Black, Node(o.l, o.node, c.color, Painted(o.r, Black)))))
      ensures Nodes(tree) == old(Nodes(tree)) && Inorder(tree) == old(Inorder(tree))
    {
      ghost var beside := InRight(c.up, parent, c.color, t);
      See(c.up, Node(t, parent, c.color, o));
      See(beside, o);
      Paint(other, parent.color, beside, o);
      Paint(parent, Black, c.up, Node(t, parent, c.color, Painted(o, c.color)));
      See(InRight(InRight(c.up, parent, Black, t), o.node, c.color, o.l), o.r);
      See(InRight(c.up, parent, Black, t), Painted(o, c.color));
      Paint(other.right, Black, InRight(InRight(c.up, parent, Black, t), o.node, c.color, o.l), o.r);
      RotateLeft(parent, c.up, Node(t, parent, Black, Node(o.l, o.node, c.color, Painted(o.r, Black))));
    }

    // One round of the loop for a hole that is a left child.
    method EraseStepLeft(node0: RbNode?, parent0: RbNode, ghost c0: Ctx, ghost t: Tree)
      returns (node: RbNode?, parent: RbNode?, done: bool, ghost c': Ctx, ghost t': Tree)
      requires Valid() && tree == Plug(c0, t) && Root(t) == node0
      requires Short(c0, t) && IsBlack(t) && c0.InLeft? && c0.node == parent0
      modifies this, Nodes(tree)`left, Nodes(tree)`right, Nodes(tree)`parent, Nodes(tree)`color
      ensures Valid() && tree == Plug(c', t') && node == Root(t') && Nodes(tree) == old(Nodes(tree))
      ensures Inorder(tree) == old(Inorder(tree))
      ensures if done then RedBlack(tree) && c'.Top?
              else Short(c', t') && parent == Parent(c') && (IsBlack(t') ==> Depth(c') < Depth(c0))
    {
      ghost var c := c0;
      SiblingExists(c, t);
      See(c, t);
      See(InRight(c.up, parent0, c.color, t), c.r);
      parent := parent0;
      var other := parent.right;
      if other.color == Red {
        SidewaysSound(c, t);
        TurnSiblingLeft(parent, other, c, t);
        c := Sideways(c);
        other := parent.right;
      }
      ghost var beside := InRight(c.up, parent, c.color, t);
      SiblingExists(c, t);
      See(c, t);
      See(beside, c.r);
      See(InLeft(beside, c.r.node, Black, c.r.r), c.r.l);
      See(InRight(beside, c.r.node, Black, c.r.l), c.r.r);
      done := !((other.left == null || other.left.color == Black) &&
                (other.right == null || other.right.color == Black));
      if !done {
        MergedSound(c, t);
        Paint(other, Red, beside, c.r);
        c', t' := c.up, Merged(c, t);
        See(c', t');
        node := parent;
        parent := node.parent;
      } else {
        RefilledSound(c, t);
        FitsPlug(c.up, Refilled(c, t));
        RefillLeft(parent, other, c, t);
        c', t' := Top, tree;
        node := rbNode;
      }
    }

    // The hole is a right child and its sibling is red.
    method TurnSiblingRight(parent: RbNode, other: RbNode, ghost c: Ctx, ghost t: Tree)
      requires Valid() && tree == Plug(c, t) && c.InRight? && c.node == parent
      requires c.l.Node? && c.l.node == other && c.l.r.Node?
      modifies this, Nodes(tree)`left, Nodes(tree)`right, Nodes(tree)`parent, Nodes(tree)`color
      ensures Valid() && tree == Plug(Sideways(c), t) && parent.left == Root(c.l.r)
      ensures Nodes(tree) == old(Nodes(tree)) && Inorder(tree) == old(Inorder(tree))
    {
      See(c, t);
      See(InLeft(c.up, parent, c.color, t), c.l);
      Paint(other, Black, InLeft(c.up, parent, c.color, t), c.l);
      Paint(parent, Red, c.up, Node(Painted(c.l, Black), parent, c.color, t));
      RotateRight(parent, c.up, Node(Painted(c.l, Black), parent, Red, t));
      See(Sideways(c), t);
    }

    // The hole is a right child and its black sibling has a red child.
    method RefillRight(parent: RbNode, other0: RbNode, ghost c: Ctx, ghost t: Tree)
      requires Valid() && tree == Plug(c, t) && c.InRight? && c.node == parent
      requires c.l.Node? && c.l.node == other0 && c.l.color == Black
      requires !(IsBlack(Near(c)) && IsBlack(Far(c)))
      modifies this, Nodes(tree)`left, Nodes(tree)`right, Nodes(tree)`parent, Nodes(tree)`color
      ensures Valid() && tree == Plug(c.up, Refilled(c, t))
      ensures Nodes(tree) == old(Nodes(tree)) && Inorder(tree) == old(Inorder(tree))
    {
      ghost var o := c.l;
      ghost var beside := InLeft(c.up, parent, c.color, t);
      See(c, t);
      See(beside, o);
      See(InLeft(beside, o.node, Black, o.r), o.l);
      See(InRight(beside, o.node, Black, o.l), o.r);
      var other := other0;
      if other.left == null || other.left.color == Black {
        Paint(other.right, Black, InRight(beside, o.node, Black, o.l), o.r);
        Paint(other, Red, beside, Node(o.l, o.node, Black, Painted(o.r, Black)));
        RotateLeft(other, beside, Node(o.l, o.node, Red, Painted(o.r, Black)));
        o := FarRed(c);
        See(beside, o);
        See(beside.up, Node(o, parent, c.color, t));
        other := parent.left;
      }
      FinishRefillRight(parent, other, c, t, o);
    }

    // The last steps of a round that ends the loop.
    method FinishRefillRight(parent: RbNode, other: RbNode, ghost c: Ctx, ghost t: Tree, ghost o: Tree)
      requires Valid() && c.InRight? && c.node == parent && o.Node? && o.node == other && o.l.Node?
      requires tree == Plug(c.up, Node(o, parent, c.color, t))
      modifies this, Nodes(tree)`left, Nodes(tree)`right, Nodes(tree)`parent, Nodes(tree)`color
      ensures Valid()
      ensures tree == Plug(c.up, RotatedRight(Node(Node(Painted(o.l, Black), o.node, c.color, o.r), parent, Black, t)))
      ensures Nodes(tree) == old(Nodes(tree)) && Inorder(tree) == old(Inorder(tree))
    {
      ghost var beside := InLeft(c.up, parent, c.color, t);
      See(c.up, Node(o, parent, c.color, t));
      See(beside, o);
      Paint(other, parent.color, beside, o);
      Paint(parent, Black, c.up, Node(Painted(o, c.color), parent, c.color, t));
      See(InLeft(InLeft(c.up, parent, Black, t), o.node, c.color, o.r), o.l);
      See(InLeft(c.up, parent, Black, t), Painted(o, c.color));
      Paint(other.left, Black, InLeft(InLeft(c.up, parent, Black, t), o.node, c.color, o.r), o.l);
      RotateRight(parent, c.up, Node(Node(Painted(o.l, Black), o.node, c.color, o.r), parent, Black, t));
    }

    // One round of the loop for a hole that is a right child.
    method EraseStepRight(node0: RbNode?, parent0: RbNode, ghost c0: Ctx, ghost t: Tree)
      returns (node: RbNode?, parent: RbNode?, done: bool, ghost c': Ctx, ghost t': Tree)
      requires Valid() && tree == Plug(c0, t) && Root(t) == node0
      requires Short(c0, t) && IsBlack(t) && c0.InRight? && c0.node == parent0
      modifies this, Nodes(tree)`left, Nodes(tree)`right, Nodes(tree)`parent, Nodes(tree)`color
      ensures Valid() && tree == Plug(c', t') && node == Root(t') && Nodes(tree) == old(Nodes(tree))
      ensures Inorder(tree) == old(Inorder(tree))
      ensures if done then RedBlack(tree) && c'.Top?
              else Short(c', t') && parent == Parent(c') && (IsBlack(t') ==> Depth(c') < Depth(c0))
    {
      ghost var c := c0;
      SiblingExists(c, t);
      See(c, t);
      See(InLeft(c.up, parent0, c.color, t), c.l);
      parent := parent0;
      var other := parent.left;
      if other.color == Red {
        SidewaysSound(c, t);
        TurnSiblingRight(parent, other, c, t);
        c := Sideways(c);
        other := parent.left;
      }
      ghost var beside := InLeft(c.up, parent, c.color, t);
      SiblingExists(c, t);
      See(c, t);
      See(beside, c.l);
      See(InLeft(beside, c.l.node, Black, c.l.r), c.l.l);
      See(InRight(beside, c.l.node, Black, c.l.l), c.l.r);
      done := !((other.left == null || other.left.color == Black) &&
                (other.right == null || other.right.color == Black));
      if !done {
        MergedSound(c, t);
        Paint(other, Red, beside, c.l);
        c', t' := c.up, Merged(c, t);
        See(c', t');
        node := parent;
        parent := node.parent;
      } else {
        RefilledSound(c, t);
        FitsPlug(c.up, Refilled(c, t));
        RefillRight(parent, other, c, t);
        c', t' := Top, tree;
        node := rbNode;
      }
    }

    // __rb_erase_color: the subtree at node0 lacks one black node.
    method EraseColor(node0: RbNode?, parent0: RbNode?, ghost c0: Ctx, ghost t0: Tree)
      requires Valid() && tree == Plug(c0, t0) && node0 == Root(t0) && parent0 == Parent(c0)
      requires Short(c0, t0)
      modifies this, Nodes(tree)`left, Nodes(tree)`right, Nodes(tree)`parent, Nodes(tree)`color
      ensures Valid() && RedBlack(tree)
      ensures Nodes(tree) == old(Nodes(tree)) && Inorder(tree) == old(Inorder(tree))
    {
      var node, parent := node0, parent0;
      ghost var c, t := c0, t0;
      ghost var finished := false;
      See(c, t);
      See(Top, tree);
      while (node == null || node.color == Black) && node != rbNode
        invariant Valid() && tree == Plug(c, t) && node == Root(t) && parent == Parent(c)
        invariant Short(c, t) && !finished
        invariant Nodes(tree) == old(Nodes(tree)) && Inorder(tree) == old(Inorder(tree))
        decreases if IsBlack(t) then Depth(c) + 1 else 0
      {
        See(c, t);
        SiblingExists(c, t);
        var done;
        if parent.left == node {
          node, parent, done, c, t := EraseStepLeft(node, parent, c, t);
        } else {
          node, parent, done, c, t := EraseStepRight(node, parent, c, t);
        }
        if done {
          finished := true;
          break;
        }
      }
      See(c, t);
      if finished {
        assert Painted(t, Black) == t == tree;
      } else {
        RootAround(c, t);
        FinishSound(c, t);
        FitsPlug(c, Painted(t, Black));
      }
      if node != null {
        Paint(node, Black, c, t);
      }
    }

    // Unlinking a node with at most one child.
    method UnlinkLinks(node: RbNode, child: RbNode?, ghost s: set<RbNode>)
      requires CanUnlink(LinksOf(s), node, child)
      modifies this`rbNode, s`left, s`right, s`parent, s`color
      ensures rbNode == if old(node.parent) == null then child else old(rbNode)
      ensures forall n :: n in s && n != node ==> n.Now() == UnlinkAt(old(LinksOf(s)), node, child, n)
    {
      ghost var m := LinksOf(s);
      assert m[node] == node.Now();
      var parent := node.parent;
      assert parent != null ==> m[parent] == parent.Now();
      if child != null {
        child.parent := parent;
      }
      if parent != null {
        if parent.left == node {
          parent.left := child;
        } else {
          parent.right := child;
        }
      } else {
        rbNode := child;
      }
    }

    // Putting the successor `node` in the place of `old_`; returns what hung below it.
    method PromoteLinks(old_: RbNode, node: RbNode, ghost s: set<RbNode>)
      returns (child: RbNode?, parent: RbNode, color: Color)
      requires CanPromote(LinksOf(s), old_, node)
      modifies this`rbNode, s`left, s`right, s`parent, s`color
      ensures rbNode == if old(old_.parent) == null then node else old(rbNode)
      ensures child == old(node.right) && color == old(node.color)
      ensures parent == if old(node.parent) == old_ then node else old(node.parent)
      ensures forall n :: n in s && n != old_ ==> n.Now() == Promoted(old(LinksOf(s)), old_, node)[n]
    {
      ghost var m := LinksOf(s);
      assert m[old_] == old_.Now() && m[node] == node.Now();
      var up := old_.parent;
      if up != null {
        assert m[up] == up.Now();
        if up.left == old_ {
          up.left := node;
        } else {
          up.right := node;
        }
      } else {
        rbNode := node;
      }
      child := node.right;
      parent := node.parent;
      color := node.color;
      if parent == old_ {
        parent := node;
      } else {
        assert m[parent] == parent.Now();
        if child != null {
          child.parent := parent;
        }
        parent.left := child;
        node.right := old_.right;
        old_.right.parent := node;
      }
      node.parent := old_.parent;
      node.color := old_.color;
      node.left := old_.left;
      old_.left.parent := node;
      forall n | n in s && n != old_ ensures n.Now() == Promoted(m, old_, node)[n] { PromotedCell(m, old_, node, n); }
    }

    method Unlink(node: RbNode, child: RbNode?, ghost c: Ctx, ghost t: Tree)
      requires Valid() && tree == Plug(c, t) && t.Node? && t.node == node
      requires (t.l.Leaf? || t.r.Leaf?) && child == Root(OnlyChild(t))
      modifies this, Nodes(tree)`left, Nodes(tree)`right, Nodes(tree)`parent, Nodes(tree)`color
      ensures Valid() && tree == Plug(c, OnlyChild(t))
      ensures Nodes(tree) == old(Nodes(tree)) - {node} && Inorder(tree) == Without(old(Inorder(tree)), node)
    {
      ghost var m := LinksOf(Nodes(tree));
      UnlinkPlan(c, t, m);
      UnlinkLinks(node, child, Nodes(tree));
      UnlinkShape(c, t, m, LinksOf(m.Keys - {node}));
      tree, nodes := Plug(c, OnlyChild(t)), nodes - {node};
    }

    // Down the left children from the root of t.
    method Leftmost(n: RbNode, ghost c: Ctx, ghost t: Tree) returns (node: RbNode)
      requires Valid() && tree == Plug(c, t) && t.Node? && t.node == n
      ensures node == MinTree(t).node && Valid()
    {
      node := n;
      ghost var c', t' := c, t;
      See(c', t');
      while node.left != null
        invariant Valid() && tree == Plug(c', t') && t'.Node? && node == t'.node && node in Nodes(tree)
        invariant node.left == Root(t'.l)
        invariant MinTree(t') == MinTree(t)
        decreases t'
      {
        node := node.left;
        c', t' := InLeft(c', t'.node, t'.color, t'.r), t'.l;
        See(c', t');
      }
    }

    // Putting the leftmost node right of old_ in the place of old_.
    method Promote(old_: RbNode, node: RbNode, ghost c: Ctx, ghost t: Tree)
      returns (child: RbNode?, parent: RbNode, color: Color)
      requires Valid() && tree == Plug(c, t) && t.Node? && t.node == old_ && t.l.Node? && t.r.Node?
      requires node == MinTree(t.r).node
      modifies this, Nodes(tree)`left, Nodes(tree)`right, Nodes(tree)`parent, Nodes(tree)`color
      ensures Valid() && tree == Plug(Gap(c, t).0, Gap(c, t).1)
      ensures child == Root(Gap(c, t).1) && parent == Parent(Gap(c, t).0) && color == MinTree(t.r).color
      ensures Nodes(tree) == old(Nodes(tree)) - {old_} && Inorder(tree) == Without(old(Inorder(tree)), old_)
    {
      ghost var m := LinksOf(Nodes(tree));
      PromotePlan(c, t, m);
      assert m[node] == node.Now() && m[old_] == old_.Now();
      child, parent, color := PromoteLinks(old_, node, m.Keys);
      tree, nodes := Plug(Gap(c, t).0, Gap(c, t).1), nodes - {old_};
      LinksAre(Nodes(tree), Promoted(m, old_, node));
    }

    // rb_erase
    method Erase(node: RbNode)
      requires Valid() && RedBlack(tree) && node in Nodes(tree)
      modifies this, Nodes(tree)`left, Nodes(tree)`right, Nodes(tree)`parent, Nodes(tree)`color
      ensures Valid() && RedBlack(tree)
      ensures Nodes(tree) == old(Nodes(tree)) - {node}
      ensures Inorder(tree) == Without(old(Inorder(tree)), node)
    {
      ghost var c, t := Locate(Top, tree, node);
      FitsPlug(c, t);
      See(c, t);
      var child, parent, color;
      if node.left != null && node.right != null {
        PromoteSound(c, t);
        var next := Leftmost(node.right, InRight(c, node, t.color, t.l), t.r);
        child, parent, color := Promote(node, next, c, t);
        c, t := Gap(c, t).0, Gap(c, t).1;
      } else {
        UnlinkSound(c, t);
        child := if node.left == null then node.right else node.left;
        parent, color := node.parent, node.color;
        Unlink(node, child, c, t);
        t := OnlyChild(t);
      }
      FitsPlug(c, t);
      if color == Black {
        EraseColor(child, parent, c, t);
      }
    }

    // ----- linking and walking -----

    // rb_link_node: node becomes a red leaf at the hole of c.
    method LinkNode(node: RbNode, parent: RbNode?, left: bool, ghost c: Ctx)
      requires Valid() && tree == Plug(c, Leaf) && parent == Parent(c) && left == c.InLeft?
      requires node !in Nodes(tree)
      modifies this, Nodes(tree)`left, Nodes(tree)`right, Nodes(tree)`parent, Nodes(tree)`color
      modifies node`left, node`right, node`parent, node`color
      ensures Valid() && tree == Plug(c, Node(Leaf, node, Red, Leaf))
      ensures Nodes(tree) == old(Nodes(tree)) + {node}
      ensures Inorder(tree) == Before(c) + [node] + After(c)
    {
      ghost var m := LinksOf(Nodes(tree));
      See(c, Leaf);
      Focus(c, Node(Leaf, node, Red, Leaf));
      LinkLinks(node, parent, left, m.Keys);
      tree, nodes := Plug(c, Node(Leaf, node, Red, Leaf)), nodes + {node};
      AttachShape(c, node, m, LinksOf(Nodes(tree)));
    }

    method LinkLinks(node: RbNode, parent: RbNode?, left: bool, ghost s: set<RbNode>)
      requires node !in s && (parent != null ==> parent in s)
      modifies this`rbNode, s`left, s`right, s`parent, s`color, node`left, node`right, node`parent, node`color
      ensures rbNode == if parent == null then node else old(rbNode)
      ensures forall n :: n in s + {node} ==> n.Now() == AttachAt(old(LinksOf(s)), node, parent, left, n)
    {
      node.parent, node.color := parent, Red;
      node.left, node.right := null, null;
      if parent == null {
        rbNode := node;
      } else if left {
        parent.left := node;
      } else {
        parent.right := node;
      }
    }

    // rb_link_node followed by rb_insert_color
    method Insert(node: RbNode, parent: RbNode?, left: bool, ghost c: Ctx)
      requires Valid() && RedBlack(tree)
      requires tree == Plug(c, Leaf) && parent == Parent(c) && left == c.InLeft? && node !in Nodes(tree)
      modifies this, Nodes(tree)`left, Nodes(tree)`right, Nodes(tree)`parent, Nodes(tree)`color
      modifies node`left, node`right, node`parent, node`color
      ensures Valid() && RedBlack(tree)
      ensures Nodes(tree) == old(Nodes(tree)) + {node}
      ensures Inorder(tree) == Before(c) + [node] + After(c)
    {
      LinkNode(node, parent, left, c);
      InsertColor(node, c);
    }

    // rb_first
    method First() returns (n: RbNode?)
      requires Valid()
      ensures Valid() && n == if Inorder(tree) == [] then null else Inorder(tree)[0]
    {
      See(Top, tree);
      n := rbNode;
      if n == null {
        return;
      }
      MinIsFirst(tree);
      n := Leftmost(n, Top, tree);
    }

    // rb_next
    method Next(node0: RbNode) returns (next: RbNode?)
      requires Valid() && node0 in Nodes(tree)
      ensures Valid() && next == Following(Inorder(tree), node0)
    {
      ghost var c, t := Locate(Top, tree, node0);
      See(c, t);
      SuccessorFollows(c, t);
      if node0.parent == node0 {
        return null;
      }
      if node0.right != null {
        next := Leftmost(node0.right, InRight(c, node0, t.color, t.l), t.r);
        return;
      }
      var node := node0;
      var parent := node.parent;
      while parent != null && node == parent.right
        invariant Valid() && tree == Plug(c, t) && t.Node? && node == t.node && parent == Parent(c)
        invariant parent != null ==> parent in Nodes(tree) && (node == parent.right <==> c.InRight?)
        invariant FirstAfter(c) == Following(Inorder(tree), node0)
        decreases Depth(c)
      {
        node := parent;
        c, t := c.up, Joined(c, t);
        See(c, t);
        parent := node.parent;
      }
      return parent;
    }
  }
}
