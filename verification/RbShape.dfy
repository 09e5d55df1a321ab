// The values a red-black tree of linked nodes stands for: the tree itself, a
// tree with a hole (its path back to the root), and the link fields that every
// node has to hold for the heap to represent them.
module RbShape {
  import opened Lists
  import opened Words

  datatype Color = Red | Black

  // The four link fields of struct rb_node. The parent pointer and the colour
  // share one word in the source; here they are two fields.
  datatype Cell = Cell(left: RbNode?, right: RbNode?, parent: RbNode?, color: Color)

  // struct sched_entity with the struct rb_node it embeds: a pointer to the one
  // is a pointer to the other, so container_of is the identity. The operations of
  // the tree touch the four link fields only.
  class RbNode {
    var left: RbNode?
    var right: RbNode?
    var parent: RbNode?
    var color: Color

    var weight: u32
    var onRq: bool
    var vruntime: u32
    var sumExec: u32
    var prevSumExec: u32

    constructor (weight: u32, vruntime: u32)
      ensures this.weight == weight && this.vruntime == vruntime
      ensures !onRq && sumExec == 0 && prevSumExec == 0
    {
      left, right, parent, color := null, null, null, Red;
      this.weight, this.vruntime := weight, vruntime;
      onRq, sumExec, prevSumExec := false, 0, 0;
    }

    ghost function Now(): Cell
      reads this`left, this`right, this`parent, this`color
    {
      Cell(left, right, parent, color)
    }
  }

  datatype Tree = Leaf | Node(l: Tree, node: RbNode, color: Color, r: Tree)

  // A tree with one subtree missing, read from the hole up to the root.
  datatype Ctx =
    | Top
    | InLeft(up: Ctx, node: RbNode, color: Color, r: Tree)
    | InRight(up: Ctx, node: RbNode, color: Color, l: Tree)

  ghost function Root(t: Tree): RbNode? {
    if t.Leaf? then null else t.node
  }

  ghost function Parent(c: Ctx): RbNode? {
    if c.Top? then null else c.node
  }

  ghost function Plug(c: Ctx, t: Tree): Tree
    decreases c
  {
    match c
    case Top => t
    case InLeft(up, n, col, r) => Plug(up, Node(t, n, col, r))
    case InRight(up, n, col, l) => Plug(up, Node(l, n, col, t))
  }

  ghost function Nodes(t: Tree): set<RbNode> {
    if t.Leaf? then {} else Nodes(t.l) + {t.node} + Nodes(t.r)
  }

  ghost function Around(c: Ctx): set<RbNode> {
    match c
    case Top => {}
    case InLeft(up, n, _, r) => Around(up) + {n} + Nodes(r)
    case InRight(up, n, _, l) => Around(up) + {n} + Nodes(l)
  }

  ghost function Depth(c: Ctx): nat {
    if c.Top? then 0 else 1 + Depth(c.up)
  }

  // ----- order -----

  ghost function Inorder(t: Tree): seq<RbNode> {
    if t.Leaf? then [] else Inorder(t.l) + [t.node] + Inorder(t.r)
  }

  ghost function Before(c: Ctx): seq<RbNode> {
    match c
    case Top => []
    case InLeft(up, _, _, _) => Before(up)
    case InRight(up, n, _, l) => Before(up) + Inorder(l) + [n]
  }

  ghost function After(c: Ctx): seq<RbNode> {
    match c
    case Top => []
    case InLeft(up, n, _, r) => [n] + Inorder(r) + After(up)
    case InRight(up, _, _, _) => After(up)
  }

  lemma {:induction false} InorderPlug(c: Ctx, t: Tree)
    ensures Inorder(Plug(c, t)) == Before(c) + Inorder(t) + After(c)
    decreases c
  {
    match c
    case Top =>
    case InLeft(up, n, col, r) => InorderPlug(up, Node(t, n, col, r));
    case InRight(up, n, col, l) => InorderPlug(up, Node(l, n, col, t));
  }

  lemma {:induction false} BeforeIsAround(c: Ctx, n: RbNode)
    requires n in Before(c)
    ensures n in Around(c)
  {
    match c
    case InLeft(up, _, _, _) =>
      BeforeIsAround(up, n);
    case InRight(up, x, _, l) =>
      if n in Before(up) {
        BeforeIsAround(up, n);
      } else {
        InorderNodes(l);
      }
  }

  lemma {:induction false} InorderNodes(t: Tree)
    ensures forall n :: n in Inorder(t) <==> n in Nodes(t)
  {
    if t.Node? {
      InorderNodes(t.l);
      InorderNodes(t.r);
    }
  }

  // ----- no node occurs twice -----

  ghost predicate Distinct(t: Tree) {
    t.Leaf? ||
    (&& Distinct(t.l) && Distinct(t.r)
     && t.node !in Nodes(t.l) && t.node !in Nodes(t.r) && Nodes(t.l) !! Nodes(t.r))
  }

  ghost predicate CtxDistinct(c: Ctx) {
    match c
    case Top => true
    case InLeft(up, n, _, r) =>
      CtxDistinct(up) && Distinct(r) && n !in Around(up) && n !in Nodes(r) && Nodes(r) !! Around(up)
    case InRight(up, n, _, l) =>
      CtxDistinct(up) && Distinct(l) && n !in Around(up) && n !in Nodes(l) && Nodes(l) !! Around(up)
  }

  lemma {:induction false} Focus(c: Ctx, t: Tree)
    ensures Nodes(Plug(c, t)) == Around(c) + Nodes(t)
    ensures Distinct(Plug(c, t)) <==> CtxDistinct(c) && Distinct(t) && Around(c) !! Nodes(t)
    decreases c
  {
    match c
    case Top =>
    case InLeft(up, n, col, r) => Focus(up, Node(t, n, col, r));
    case InRight(up, n, col, l) => Focus(up, Node(l, n, col, t));
  }

  lemma {:induction false} RootOfPlug(c: Ctx, t: Tree, t': Tree)
    requires c.Top? ==> Root(t) == Root(t')
    ensures Root(Plug(c, t)) == Root(Plug(c, t'))
    decreases c
  {
    match c
    case Top =>
    case InLeft(up, n, col, r) => RootOfPlug(up, Node(t, n, col, r), Node(t', n, col, r));
    case InRight(up, n, col, l) => RootOfPlug(up, Node(l, n, col, t), Node(l, n, col, t'));
  }

  lemma {:induction false} RootAround(c: Ctx, t: Tree)
    ensures !c.Top? ==> Root(Plug(c, t)) in Around(c)
    decreases c
  {
    match c
    case Top =>
    case InLeft(up, n, col, r) => RootAround(up, Node(t, n, col, r));
    case InRight(up, n, col, l) => RootAround(up, Node(l, n, col, t));
  }

  // Every node is the root of some subtree.
  lemma {:induction false} Locate(c0: Ctx, t0: Tree, n: RbNode) returns (c: Ctx, t: Tree)
    requires n in Nodes(t0)
    ensures Plug(c, t) == Plug(c0, t0) && t.Node? && t.node == n
    decreases t0
  {
    if n == t0.node {
      c, t := c0, t0;
    } else if n in Nodes(t0.l) {
      c, t := Locate(InLeft(c0, t0.node, t0.color, t0.r), t0.l, n);
    } else {
      c, t := Locate(InRight(c0, t0.node, t0.color, t0.l), t0.r, n);
    }
  }

  // ----- what each node must hold -----

  // The cell of node n in a subtree hanging under p.
  ghost function At(t: Tree, p: RbNode?, n: RbNode): Cell
    requires n in Nodes(t)
  {
    if n == t.node then Cell(Root(t.l), Root(t.r), p, t.color)
    else if n in Nodes(t.l) then At(t.l, t.node, n) else At(t.r, t.node, n)
  }

  // The cell of node n outside a hole that holds the node `hole`.
  ghost function CtxAt(c: Ctx, hole: RbNode?, n: RbNode): Cell
    requires n in Around(c)
  {
    match c
    case InLeft(up, x, col, r) =>
      if n == x then Cell(hole, Root(r), Parent(up), col)
      else if n in Nodes(r) then At(r, x, n) else CtxAt(up, x, n)
    case InRight(up, x, col, l) =>
      if n == x then Cell(Root(l), hole, Parent(up), col)
      else if n in Nodes(l) then At(l, x, n) else CtxAt(up, x, n)
  }

  lemma {:induction false} FocusAt(c: Ctx, t: Tree, n: RbNode)
    requires Distinct(Plug(c, t)) && n in Nodes(Plug(c, t))
    ensures n in Nodes(t) ==> At(Plug(c, t), null, n) == At(t, Parent(c), n)
    ensures n !in Nodes(t) ==> n in Around(c) && At(Plug(c, t), null, n) == CtxAt(c, Root(t), n)
    decreases c
  {
    Focus(c, t);
    match c
    case Top =>
    case InLeft(up, x, col, r) =>
      Focus(up, Node(t, x, col, r));
      FocusAt(up, Node(t, x, col, r), n);
    case InRight(up, x, col, l) =>
      Focus(up, Node(l, x, col, t));
      FocusAt(up, Node(l, x, col, t), n);
  }

  type Links = map<RbNode, Cell>

  // The link fields of the nodes of t, and of no others, are those of t.
  ghost predicate Shape(t: Tree, m: Links) {
    Distinct(t) && m.Keys == Nodes(t) && forall n :: n in m ==> m[n] == At(t, null, n)
  }

  // A parent's cell after its child at the hole became `hole`.
  ghost function Relink(cell: Cell, c: Ctx, hole: RbNode?): Cell
    requires !c.Top?
  {
    if c.InLeft? then cell.(left := hole) else cell.(right := hole)
  }

  // Replacing a subtree by another one touches no cell outside it but its parent's.
  lemma Swap(c: Ctx, t: Tree, t': Tree, m: Links, m': Links)
    requires Shape(Plug(c, t), m)
    requires Distinct(t') && Around(c) !! Nodes(t') && m'.Keys == Around(c) + Nodes(t')
    requires forall n :: n in Around(c) && n in m ==>
      m'[n] == if n == Parent(c) then Relink(m[n], c, Root(t')) else m[n]
    requires forall n :: n in Nodes(t') ==> m'[n] == At(t', Parent(c), n)
    ensures Shape(Plug(c, t'), m')
  {
    Focus(c, t);
    Focus(c, t');
    forall n | n in m' ensures m'[n] == At(Plug(c, t'), null, n) {
      FocusAt(c, t', n);
      if n in Around(c) {
        FocusAt(c, t, n);
      }
    }
  }

  // The cells on both sides of a hole: parent and child point at each other.
  lemma Peek(c: Ctx, t: Tree, m: Links)
    requires Shape(Plug(c, t), m)
    ensures t.Node? ==> t.node in m && m[t.node] == Cell(Root(t.l), Root(t.r), Parent(c), t.color)
    ensures !c.Top? ==> c.node in m && c.node !in Nodes(t)
    ensures c.InLeft? ==> m[c.node] == Cell(Root(t), Root(c.r), Parent(c.up), c.color)
    ensures c.InRight? ==> m[c.node] == Cell(Root(c.l), Root(t), Parent(c.up), c.color)
    ensures c.InLeft? && t.Node? ==> Root(c.r) != t.node
    ensures c.InRight? && t.Node? ==> Root(c.l) != t.node
  {
    Focus(c, t);
    if t.Node? {
      FocusAt(c, t, t.node);
    }
    match c
    case Top =>
    case InLeft(up, n, col, r) =>
      FocusAt(c, t, n);
      assert r.Node? ==> r.node in Around(c);
    case InRight(up, n, col, l) =>
      FocusAt(c, t, n);
      assert l.Node? ==> l.node in Around(c);
  }

  // Hanging a subtree under another parent changes its root's cell only.
  lemma AtRehung(t: Tree, p: RbNode?, p': RbNode?, n: RbNode)
    requires n in Nodes(t)
    ensures At(t, p', n) == if n == t.node then At(t, p, n).(parent := p') else At(t, p, n)
  {}

  // ----- the leftmost node of a subtree -----

  ghost function MinTree(t: Tree): (r: Tree)
    requires t.Node?
    ensures r.Node? && r.l.Leaf?
  {
    if t.l.Leaf? then t else MinTree(t.l)
  }

  ghost function MinCtx(c: Ctx, t: Tree): Ctx
    requires t.Node?
    decreases t
  {
    if t.l.Leaf? then c else MinCtx(InLeft(c, t.node, t.color, t.r), t.l)
  }

  ghost function WithoutMin(t: Tree): Tree
    requires t.Node?
  {
    if t.l.Leaf? then t.r else Node(WithoutMin(t.l), t.node, t.color, t.r)
  }

  lemma {:induction false} MinPlug(c: Ctx, t: Tree)
    requires t.Node?
    ensures Plug(MinCtx(c, t), MinTree(t)) == Plug(c, t)
    ensures Plug(MinCtx(c, t), MinTree(t).r) == Plug(c, WithoutMin(t))
    decreases t
  {
    if t.l.Node? {
      MinPlug(InLeft(c, t.node, t.color, t.r), t.l);
    }
  }

  lemma {:induction false} MinIsFirst(t: Tree)
    requires t.Node?
    ensures Inorder(t) == [MinTree(t).node] + Inorder(WithoutMin(t))
  {
    if t.l.Node? {
      MinIsFirst(t.l);
      assert Inorder(t) == [MinTree(t).node] + (Inorder(WithoutMin(t.l)) + [t.node] + Inorder(t.r));
    }
  }

  lemma {:induction false} WithoutSplit(a: seq<RbNode>, x: RbNode, b: seq<RbNode>)
    requires x !in a
    ensures Without(a + [x] + b, x) == a + b
  {
    if a == [] {
      assert a + [x] + b == [x] + b;
      assert a + b == b;
    } else {
      WithoutSplit(a[1..], x, b);
      assert (a + [x] + b)[1..] == a[1..] + [x] + b;
      assert a + b == [a[0]] + (a[1..] + b);
    }
  }

  // Taking the focus node out of the order.
  lemma WithoutFocus(c: Ctx, t: Tree)
    requires t.Node? && Distinct(Plug(c, t))
    ensures Without(Inorder(Plug(c, t)), t.node) == Before(c) + (Inorder(t.l) + Inorder(t.r)) + After(c)
  {
    var x, a, b := t.node, Before(c) + Inorder(t.l), Inorder(t.r) + After(c);
    Focus(c, t);
    if x in Before(c) {
      BeforeIsAround(c, x);
    }
    InorderNodes(t.l);
    InorderPlug(c, t);
    WithoutSplit(a, x, b);
    Regroup(Before(c), Inorder(t.l), x, Inorder(t.r), After(c));
  }

  lemma Regroup(p: seq<RbNode>, l: seq<RbNode>, x: RbNode, r: seq<RbNode>, q: seq<RbNode>)
    ensures p + (l + [x] + r) + q == (p + l) + [x] + (r + q)
    ensures (p + l) + (r + q) == p + (l + r) + q
  {}

  // The element after x, or null when x is the last.
  ghost function Following(s: seq<RbNode>, x: RbNode): RbNode? {
    if s == [] then null
    else if s[0] == x then (if |s| > 1 then s[1] else null)
    else Following(s[1..], x)
  }

  lemma {:induction false} FollowingSplit(a: seq<RbNode>, x: RbNode, b: seq<RbNode>)
    requires x !in a
    ensures Following(a + [x] + b, x) == if b == [] then null else b[0]
  {
    if a == [] {
      assert a + [x] + b == [x] + b;
    } else {
      FollowingSplit(a[1..], x, b);
      assert (a + [x] + b)[1..] == a[1..] + [x] + b;
    }
  }

  // Who comes after the focus node: the leftmost node below it on the right, or
  // else the nearest node above that has the focus on its left.
  ghost function Successor(c: Ctx, t: Tree): RbNode?
    requires t.Node?
  {
    if t.r.Node? then MinTree(t.r).node else FirstAfter(c)
  }

  ghost function FirstAfter(c: Ctx): RbNode? {
    match c
    case Top => null
    case InLeft(_, n, _, _) => n
    case InRight(up, _, _, _) => FirstAfter(up)
  }

  lemma {:induction false} FirstAfterIsFirst(c: Ctx)
    ensures FirstAfter(c) == if After(c) == [] then null else After(c)[0]
  {
    match c
    case Top =>
    case InLeft(_, _, _, _) =>
    case InRight(up, _, _, _) => FirstAfterIsFirst(up);
  }

  lemma {:induction false} SuccessorFollows(c: Ctx, t: Tree)
    requires t.Node? && Distinct(Plug(c, t))
    ensures Following(Inorder(Plug(c, t)), t.node) == Successor(c, t)
  {
    var x, a, b := t.node, Before(c) + Inorder(t.l), Inorder(t.r) + After(c);
    Focus(c, t);
    if x in Before(c) {
      BeforeIsAround(c, x);
    }
    InorderNodes(t.l);
    InorderPlug(c, t);
    FollowingSplit(a, x, b);
    Regroup(Before(c), Inorder(t.l), x, Inorder(t.r), After(c));
    FirstAfterIsFirst(c);
    if t.r.Node? {
      MinIsFirst(t.r);
    }
  }
}
