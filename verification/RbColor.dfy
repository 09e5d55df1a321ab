// The red-black invariants, for whole trees and for trees with a hole.
module RbColor {
  import opened RbShape
  import opened RbEdits

  ghost predicate IsBlack(t: Tree) {
    t.Leaf? || t.color == Black
  }

  ghost function Weight(col: Color): nat {
    if col == Black then 1 else 0
  }

  // Black nodes on the leftmost path; on every path, once Rb holds.
  ghost function BlackHeight(t: Tree): nat {
    if t.Leaf? then 0 else BlackHeight(t.l) + Weight(t.color)
  }

  // No red node has a red child, and all paths down from a node carry equally many black nodes.
  ghost predicate Rb(t: Tree) {
    t.Node? ==>
      && Rb(t.l) && Rb(t.r) && BlackHeight(t.l) == BlackHeight(t.r)
      && (t.color == Red ==> IsBlack(t.l) && IsBlack(t.r))
  }

  ghost predicate RedBlack(t: Tree) {
    Rb(t) && IsBlack(t)
  }

  // A path on which every subtree of black height h completes a red-black tree,
  // provided it does not put a red node under a red one.
  ghost predicate CtxRb(c: Ctx, h: nat) {
    match c
    case Top => true
    case InLeft(up, _, col, r) =>
      Rb(r) && BlackHeight(r) == h && (col == Red ==> IsBlack(r) && BlackAbove(up)) && CtxRb(up, h + Weight(col))
    case InRight(up, _, col, l) =>
      Rb(l) && BlackHeight(l) == h && (col == Red ==> IsBlack(l) && BlackAbove(up)) && CtxRb(up, h + Weight(col))
  }

  // There is a node above the hole and it is black.
  ghost predicate BlackAbove(c: Ctx) {
    !c.Top? && c.color == Black
  }

  ghost predicate Fits(c: Ctx, t: Tree) {
    Rb(t) && CtxRb(c, BlackHeight(t)) && (IsBlack(t) || BlackAbove(c))
  }

  lemma {:induction false} FitsPlug(c: Ctx, t: Tree)
    ensures RedBlack(Plug(c, t)) <==> Fits(c, t)
    decreases c
  {
    match c
    case Top =>
    case InLeft(up, n, col, r) => FitsPlug(up, Node(t, n, col, r));
    case InRight(up, n, col, l) => FitsPlug(up, Node(l, n, col, t));
  }

  // ----- one round of rb_insert_color -----

  // The parent of a hole together with what fills it.
  ghost function Joined(c: Ctx, t: Tree): Tree
    requires !c.Top?
  {
    if c.InLeft? then Node(t, c.node, c.color, c.r) else Node(c.l, c.node, c.color, t)
  }

  // A red node t under a red parent c.node under a grandparent c.up.node: the
  // focus after the round.
  ghost function InsertRound(c: Ctx, t: Tree): (Ctx, Tree)
    requires t.Node? && !c.Top? && !c.up.Top?
  {
    var g, up, p := c.up.node, c.up.up, Joined(c, t);
    if c.up.InLeft? then
      var u := c.up.r;
      if !IsBlack(u) then (up, Node(Painted(p, Black), g, Red, Painted(u, Black)))
      else
        var q := if c.InRight? then RotatedLeft(p) else p;
        (InLeft(up, q.node, Black, Node(q.r, g, Red, u)), q.l)
    else
      var u := c.up.l;
      if !IsBlack(u) then (up, Node(Painted(u, Black), g, Red, Painted(p, Black)))
      else
        var q := if c.InLeft? then RotatedRight(p) else p;
        (InRight(up, q.node, Black, Node(u, g, Red, q.l)), q.r)
  }

  // The loop invariant of rb_insert_color: the focus is red and sound, and the
  // only defect there can be is a red parent above it.
  ghost predicate RedFocus(c: Ctx, t: Tree) {
    t.Node? && t.color == Red && Rb(t) && CtxRb(c, BlackHeight(t))
  }

  lemma {:induction false} InsertRoundSound(c: Ctx, t: Tree)
    requires RedFocus(c, t) && !c.Top? && c.color == Red
    ensures BlackAbove(c.up)
    ensures var (c', t') := InsertRound(c, t); RedFocus(c', t') && Depth(c') < Depth(c)
  {
    var p := Joined(c, t);
    if c.up.InLeft? {
      if IsBlack(c.up.r) { RotateRightSettles(c.up, if c.InRight? then RotatedLeft(p) else p); }
      else { RecolorMovesUp(c.up, p); }
    } else {
      if IsBlack(c.up.l) { RotateLeftSettles(c.up, if c.InLeft? then RotatedRight(p) else p); }
      else { RecolorMovesUp(c.up, p); }
    }
  }

  // A red node above two equally high sound subtrees, which may themselves be red.
  ghost predicate RedDefect(p: Tree) {
    p.Node? && p.color == Red && Rb(p.l) && Rb(p.r) && BlackHeight(p.l) == BlackHeight(p.r)
  }

  lemma RecolorMovesUp(c: Ctx, p: Tree)
    requires RedDefect(p) && BlackAbove(c) && CtxRb(c, BlackHeight(p))
    requires !IsBlack(if c.InLeft? then c.r else c.l)
    ensures var t := if c.InLeft? then Node(Painted(p, Black), c.node, Red, Painted(c.r, Black))
                     else Node(Painted(c.l, Black), c.node, Red, Painted(p, Black));
            RedFocus(c.up, t)
  {}

  lemma RotateRightSettles(c: Ctx, p: Tree)
    requires RedDefect(p) && BlackAbove(c) && c.InLeft? && CtxRb(c, BlackHeight(p))
    requires !IsBlack(p.l) && IsBlack(p.r) && IsBlack(c.r)
    ensures RedFocus(InLeft(c.up, p.node, Black, Node(p.r, c.node, Red, c.r)), p.l)
  {}

  lemma RotateLeftSettles(c: Ctx, p: Tree)
    requires RedDefect(p) && BlackAbove(c) && c.InRight? && CtxRb(c, BlackHeight(p))
    requires !IsBlack(p.r) && IsBlack(p.l) && IsBlack(c.l)
    ensures RedFocus(InRight(c.up, p.node, Black, Node(c.l, c.node, Red, p.l)), p.r)
  {}

  // ----- one round of __rb_erase_color -----

  ghost function Sibling(c: Ctx): Tree
    requires !c.Top?
  {
    if c.InLeft? then c.r else c.l
  }

  // The child of the sibling on the hole's side, and the one away from it.
  ghost function Near(c: Ctx): Tree
    requires !c.Top? && Sibling(c).Node?
  {
    if c.InLeft? then c.r.l else c.l.r
  }

  ghost function Far(c: Ctx): Tree
    requires !c.Top? && Sibling(c).Node?
  {
    if c.InLeft? then c.r.r else c.l.l
  }

  // A red sibling is rotated above the parent.
  ghost function Sideways(c: Ctx): Ctx
    requires !c.Top? && Sibling(c).Node?
  {
    if c.InLeft? then InLeft(InLeft(c.up, c.r.node, Black, c.r.r), c.node, Red, c.r.l)
    else InRight(InRight(c.up, c.l.node, Black, c.l.l), c.node, Red, c.l.r)
  }

  // The sibling turns red, and the deficit moves to the parent.
  ghost function Merged(c: Ctx, t: Tree): Tree
    requires !c.Top?
  {
    if c.InLeft? then Node(t, c.node, c.color, Painted(c.r, Red)) else Node(Painted(c.l, Red), c.node, c.color, t)
  }

  // The sibling after its far child has been made red.
  ghost function FarRed(c: Ctx): Tree
    requires !c.Top? && Sibling(c).Node? && !(IsBlack(Near(c)) && IsBlack(Far(c)))
  {
    var o := Sibling(c);
    if !IsBlack(Far(c)) then o
    else if c.InLeft? then RotatedRight(Node(Painted(o.l, Black), o.node, Red, o.r))
    else RotatedLeft(Node(o.l, o.node, Red, Painted(o.r, Black)))
  }

  // The sibling is rotated above the parent, and the missing black node is made up.
  ghost function Refilled(c: Ctx, t: Tree): Tree
    requires !c.Top? && Sibling(c).Node? && !(IsBlack(Near(c)) && IsBlack(Far(c)))
  {
    var o := FarRed(c);
    if c.InLeft? then Node(Node(t, c.node, Black, o.l), o.node, c.color, Painted(o.r, Black))
    else Node(Painted(o.l, Black), o.node, c.color, Node(o.r, c.node, Black, t))
  }

  // The loop invariant of __rb_erase_color: every path through t misses one
  // black node, and t is sound but for a red root that may have red children.
  ghost predicate Short(c: Ctx, t: Tree) {
    && CtxRb(c, BlackHeight(t) + 1)
    && (t.Node? ==> Rb(t.l) && Rb(t.r) && BlackHeight(t.l) == BlackHeight(t.r))
  }

  lemma SiblingExists(c: Ctx, t: Tree)
    requires Short(c, t) && !c.Top?
    ensures var o := Sibling(c); o.Node? && Rb(o) && BlackHeight(o) == BlackHeight(t) + 1
    ensures !IsBlack(Sibling(c)) ==> c.color == Black && Near(c).Node?
  {}

  lemma {:induction false} SidewaysSound(c: Ctx, t: Tree)
    requires Short(c, t) && !c.Top? && IsBlack(t) && !IsBlack(Sibling(c))
    ensures Sibling(c).Node?
    ensures Short(Sideways(c), t) && IsBlack(Sibling(Sideways(c))) && Sibling(Sideways(c)).Node?
    ensures Sideways(c).up.up == c.up
  {}

  lemma {:induction false} MergedSound(c: Ctx, t: Tree)
    requires Short(c, t) && !c.Top? && IsBlack(t) && IsBlack(Sibling(c)) && Sibling(c).Node?
    requires IsBlack(Near(c)) && IsBlack(Far(c))
    ensures Short(c.up, Merged(c, t))
  {
    SiblingExists(c, t);
    assert BlackHeight(Merged(c, t)) == BlackHeight(t) + Weight(c.color);
  }

  lemma FarRedSound(c: Ctx, t: Tree)
    requires Short(c, t) && !c.Top? && IsBlack(Sibling(c)) && Sibling(c).Node?
    requires !(IsBlack(Near(c)) && IsBlack(Far(c)))
    ensures FarRed(c).Node?
    ensures var near := if c.InLeft? then FarRed(c).l else FarRed(c).r;
            Rb(near) && BlackHeight(near) == BlackHeight(t)
    ensures var far := Painted(if c.InLeft? then FarRed(c).r else FarRed(c).l, Black);
            Rb(far) && IsBlack(far) && BlackHeight(far) == BlackHeight(t) + 1
  {
    SiblingExists(c, t);
    var o, near := Sibling(c), Near(c);
    assert Rb(o.l) && Rb(o.r) && BlackHeight(o.l) == BlackHeight(o.r) == BlackHeight(t);
    if IsBlack(Far(c)) {
      assert Rb(near.l) && Rb(near.r) && BlackHeight(near.l) == BlackHeight(near.r) == BlackHeight(t);
    }
  }

  lemma {:induction false} RefilledSound(c: Ctx, t: Tree)
    requires Short(c, t) && !c.Top? && IsBlack(t) && IsBlack(Sibling(c)) && Sibling(c).Node?
    requires !(IsBlack(Near(c)) && IsBlack(Far(c)))
    ensures Fits(c.up, Refilled(c, t))
  {
    FarRedSound(c, t);
    var t' := Refilled(c, t);
    var inner := if c.InLeft? then t'.l else t'.r;
    assert inner.l == if c.InLeft? then t else FarRed(c).r;
    assert inner.Node? && IsBlack(inner) && Rb(inner) && BlackHeight(inner) == BlackHeight(t) + 1;
    assert Rb(t') && BlackHeight(t') == BlackHeight(t) + 1 + Weight(c.color);
  }

  lemma FinishSound(c: Ctx, t: Tree)
    requires Short(c, t) && (!IsBlack(t) || c.Top?)
    ensures Fits(c, Painted(t, Black))
  {}

  // Taking out a node with at most one child costs at most one black node.
  lemma {:induction false} UnlinkSound(c: Ctx, t: Tree)
    requires t.Node? && (t.l.Leaf? || t.r.Leaf?) && Fits(c, t)
    ensures t.color == Black ==> Short(c, OnlyChild(t))
    ensures t.color == Red ==> Fits(c, OnlyChild(t))
  {
    var ch := OnlyChild(t);
    assert Rb(t.l) && Rb(t.r) && BlackHeight(t.l) == BlackHeight(t.r) == BlackHeight(ch);
    assert BlackHeight(t) == BlackHeight(ch) + Weight(t.color);
  }

  // Colours do not depend on which node stands where.
  lemma RenameSound(c: Ctx, t: Tree, y: RbNode)
    requires t.Node? && Fits(c, t)
    ensures Fits(c, Renamed(t, y))
  {}

  lemma {:induction false} PromoteSound(c: Ctx, t: Tree)
    requires t.Node? && t.l.Node? && t.r.Node? && Fits(c, t)
    ensures var (c', t') := Gap(c, t);
      && (MinTree(t.r).color == Black ==> Short(c', t'))
      && (MinTree(t.r).color == Red ==> Fits(c', t'))
  {
    var y := MinTree(t.r);
    var base := InRight(c, y.node, t.color, t.l);
    RenameSound(c, t, y.node);
    FitsPlug(c, Renamed(t, y.node));
    MinPlug(base, t.r);
    FitsPlug(MinCtx(base, t.r), y);
    UnlinkSound(MinCtx(base, t.r), y);
  }
}
