// The tree of mounted file systems. Mounts and directory entries are numbered;
// each field of theirs is a map.
module MountSpec {
  import opened Lists

  // parent: mnt_parent, the root mount is its own; kids: mnt_mounts, in order;
  // at: mnt_mountpoint; top: mnt_root; mounted: d_mounted of a directory entry.
  datatype Mounts = Mounts(parent: map<nat, nat>, kids: map<nat, seq<nat>>, at: map<nat, nat>,
                           top: map<nat, nat>, mounted: map<nat, int>)

  function IndexOf(s: seq<nat>, x: nat): (i: nat)
    requires x in s
    ensures i < |s| && s[i] == x && x !in s[..i]
  {
    if s[0] == x then 0 else 1 + IndexOf(s[1..], x)
  }

  lemma {:induction false} IndexUnique(s: seq<nat>, i: nat)
    requires NoDups(s) && i < |s|
    ensures IndexOf(s, s[i]) == i
  {
    if i > 0 {
      IndexUnique(s[1..], i - 1);
      assert s[i] == s[1..][i - 1];
    }
  }

  // What comes after x in s.
  function Later(s: seq<nat>, x: nat): (r: seq<nat>)
    requires x in s
    ensures forall y :: y in r ==> y in s
  {
    if s[0] == x then s[1..] else Later(s[1..], x)
  }

  lemma {:induction false} LaterAt(s: seq<nat>, i: nat)
    requires NoDups(s) && i < |s|
    ensures Later(s, s[i]) == s[i + 1..]
  {
    if i > 0 {
      LaterAt(s[1..], i - 1);
      assert s[i] == s[1..][i - 1] && s[1..][i..] == s[i + 1..];
    }
  }

  // ----- forests of mounts -----

  // Climbing parents, depth falls until a mount that is its own parent.
  ghost predicate Climbs(parent: map<nat, nat>, depth: map<nat, nat>) {
    forall m {:trigger Climb(parent, depth, m)} :: m in parent ==> Climb(parent, depth, m)
  }

  ghost predicate Climb(parent: map<nat, nat>, depth: map<nat, nat>, m: nat) {
    && m in parent && parent[m] in parent && m in depth && parent[m] in depth
    && (parent[m] != m ==> depth[parent[m]] < depth[m])
  }

  // The children lists say the same as the parent links.
  ghost predicate KidsFit(parent: map<nat, nat>, kids: map<nat, seq<nat>>) {
    && kids.Keys == parent.Keys
    && forall m {:trigger KidsOf(parent, m, kids[m])} :: m in kids ==> KidsOf(parent, m, kids[m])
  }

  ghost predicate KidsOf(parent: map<nat, nat>, m: nat, s: seq<nat>) {
    NoDups(s) && forall c :: c in s <==> c in parent && parent[c] == m && c != m
  }

  // The mounts attached at directory entry d.
  ghost function AttachedAt(parent: map<nat, nat>, at: map<nat, nat>, d: nat): set<nat> {
    set m | m in parent && parent[m] != m && m in at && at[m] == d
  }

  ghost predicate CountsFit(parent: map<nat, nat>, at: map<nat, nat>, mounted: map<nat, int>) {
    && at.Keys == parent.Keys
    && (forall m :: m in parent && parent[m] != m ==> at[m] in mounted)
    && forall d :: d in mounted ==> mounted[d] == |AttachedAt(parent, at, d)|
  }

  ghost predicate Forest(t: Mounts, depth: map<nat, nat>) {
    && Climbs(t.parent, depth) && KidsFit(t.parent, t.kids) && CountsFit(t.parent, t.at, t.mounted)
    && t.top.Keys == t.parent.Keys
  }

  // Every chain of parents ends at the global root g.
  ghost predicate Wf(t: Mounts, g: nat, depth: map<nat, nat>) {
    Forest(t, depth) && OnlyRoot(t.parent, g)
  }

  ghost predicate OnlyRoot(parent: map<nat, nat>, g: nat) {
    g in parent && forall m :: m in parent ==> (parent[m] == m <==> m == g)
  }

  // m is x or one of its ancestors.
  ghost predicate Under(parent: map<nat, nat>, depth: map<nat, nat>, x: nat, m: nat)
    requires Climbs(parent, depth) && x in parent
    decreases if x in depth then depth[x] else 0
  {
    assert Climb(parent, depth, x);
    x == m || (parent[x] != x && Under(parent, depth, parent[x], m))
  }

  lemma {:induction false} UnderRoot(parent: map<nat, nat>, g: nat, depth: map<nat, nat>, x: nat)
    requires Climbs(parent, depth) && OnlyRoot(parent, g) && x in parent
    ensures Under(parent, depth, x, g)
    decreases if x in depth then depth[x] else 0
  {
    assert Climb(parent, depth, x);
    if x != g {
      UnderRoot(parent, g, depth, parent[x]);
    }
  }

  // ----- detaching and attaching -----

  function Bump(mounted: map<nat, int>, d: nat, n: int): map<nat, int>
    requires d in mounted
  {
    mounted[d := mounted[d] + n]
  }

  function Detach(t: Mounts, m: nat): Mounts
    requires m in t.parent && t.parent[m] in t.kids && m in t.at && m in t.top && t.at[m] in t.mounted
  {
    Mounts(t.parent[m := m], t.kids[t.parent[m] := Without(t.kids[t.parent[m]], m)], t.at[m := t.top[m]], t.top,
           Bump(t.mounted, t.at[m], -1))
  }

  function Attach(t: Mounts, m: nat, p: nat, d: nat): Mounts
    requires p in t.kids && d in t.mounted
  {
    Mounts(t.parent[m := p], t.kids[p := t.kids[p] + [m]], t.at[m := d], t.top, Bump(t.mounted, d, 1))
  }

  lemma DetachKids(parent: map<nat, nat>, kids: map<nat, seq<nat>>, m: nat,
                   parent': map<nat, nat>, kids': map<nat, seq<nat>>)
    requires KidsFit(parent, kids) && m in parent && parent[m] in parent && parent[m] != m
    requires parent' == parent[m := m] && kids' == kids[parent[m] := Without(kids[parent[m]], m)]
    ensures KidsFit(parent', kids')
  {
    var q := parent[m];
    assert KidsOf(parent, q, kids[q]);
    WithoutFacts(kids[q], m);
    forall x | x in kids' ensures KidsOf(parent', x, kids'[x]) { assert KidsOf(parent, x, kids[x]); }
  }

  lemma AttachKids(parent: map<nat, nat>, kids: map<nat, seq<nat>>, m: nat, p: nat,
                   parent': map<nat, nat>, kids': map<nat, seq<nat>>)
    requires KidsFit(parent, kids) && m in parent && p in parent && parent[m] == m && p != m
    requires parent' == parent[m := p] && kids' == kids[p := kids[p] + [m]]
    ensures KidsFit(parent', kids')
  {
    assert KidsOf(parent, p, kids[p]);
    NoDupsAppend(kids[p], m);
    forall x | x in kids' ensures KidsOf(parent', x, kids'[x]) { assert KidsOf(parent, x, kids[x]); }
  }

  lemma DetachCounts(parent: map<nat, nat>, at: map<nat, nat>, mounted: map<nat, int>, m: nat, top: nat,
                     parent': map<nat, nat>, at': map<nat, nat>, mounted': map<nat, int>)
    requires CountsFit(parent, at, mounted) && m in parent && parent[m] != m
    requires parent' == parent[m := m] && at' == at[m := top] && mounted' == Bump(mounted, at[m], -1)
    ensures CountsFit(parent', at', mounted')
  {
    forall d | d in mounted
      ensures AttachedAt(parent', at', d) == AttachedAt(parent, at, d) - {m}
      ensures d == at[m] <==> m in AttachedAt(parent, at, d) {
    }
  }

  lemma AttachCounts(parent: map<nat, nat>, at: map<nat, nat>, mounted: map<nat, int>, m: nat, p: nat, d: nat,
                     parent': map<nat, nat>, at': map<nat, nat>, mounted': map<nat, int>)
    requires CountsFit(parent, at, mounted) && m in parent && parent[m] == m && p != m && d in mounted
    requires parent' == parent[m := p] && at' == at[m := d] && mounted' == Bump(mounted, d, 1)
    ensures CountsFit(parent', at', mounted')
  {
    forall e | e in mounted
      ensures AttachedAt(parent', at', e) ==
              if e == d then AttachedAt(parent, at, e) + {m} else AttachedAt(parent, at, e)
      ensures m !in AttachedAt(parent, at, e) {
    }
  }

  lemma DetachClimbs(parent: map<nat, nat>, depth: map<nat, nat>, m: nat, parent': map<nat, nat>)
    requires Climbs(parent, depth) && m in parent && parent' == parent[m := m]
    ensures Climbs(parent', depth) && parent'.Keys == parent.Keys
  {
    forall x | x in parent' ensures Climb(parent', depth, x) { assert Climb(parent, depth, x); }
  }

  // Below its new place everything under m is deeper than that place.
  ghost function MovedDepth(parent: map<nat, nat>, depth: map<nat, nat>, m: nat, p: nat): map<nat, nat>
    requires Climbs(parent, depth) && p in depth
  {
    map x | x in parent && x in depth :: if Under(parent, depth, x, m) then depth[x] + depth[p] + 1 else depth[x]
  }

  lemma AttachClimbs(parent: map<nat, nat>, depth: map<nat, nat>, m: nat, p: nat, parent': map<nat, nat>)
    requires Climbs(parent, depth) && m in parent && parent[m] == m && p in parent && p in depth
    requires parent' == parent[m := p] && !Under(parent, depth, p, m)
    ensures Climbs(parent', MovedDepth(parent, depth, m, p)) && parent'.Keys == parent.Keys
  {
    var depth' := MovedDepth(parent, depth, m, p);
    forall x | x in parent' ensures Climb(parent', depth', x) {
      assert Climb(parent, depth, x) && Climb(parent, depth, p);
      assert Climb(parent, depth, parent[x]);
    }
  }

  lemma {:induction false} DetachUnder(parent: map<nat, nat>, depth: map<nat, nat>, m: nat, x: nat,
                                       parent': map<nat, nat>)
    requires Climbs(parent, depth) && m in parent && x in parent
    requires parent' == parent[m := m] && Climbs(parent', depth)
    ensures Under(parent', depth, x, m) <==> Under(parent, depth, x, m)
    decreases if x in depth then depth[x] else 0
  {
    assert Climb(parent, depth, x);
    if x != m && parent[x] != x {
      DetachUnder(parent, depth, m, parent[x], parent');
    }
  }

  lemma {:induction false} DetachForest(t: Mounts, depth: map<nat, nat>, m: nat, t': Mounts)
    requires Forest(t, depth) && m in t.parent && t.parent[m] != m
    requires t.parent[m] in t.kids && t.at[m] in t.mounted && t' == Detach(t, m)
    ensures Forest(t', depth)
  {
    assert Climb(t.parent, depth, m);
    DetachKids(t.parent, t.kids, m, t'.parent, t'.kids);
    DetachCounts(t.parent, t.at, t.mounted, m, t.top[m], t'.parent, t'.at, t'.mounted);
    DetachClimbs(t.parent, depth, m, t'.parent);
  }

  lemma {:induction false} AttachForest(t: Mounts, depth: map<nat, nat>, m: nat, p: nat, d: nat, t': Mounts)
    requires Forest(t, depth) && m in t.parent && t.parent[m] == m && p in t.parent && d in t.mounted && p in depth
    requires !Under(t.parent, depth, p, m) && t' == Attach(t, m, p, d)
    ensures Forest(t', MovedDepth(t.parent, depth, m, p))
  {
    AttachKids(t.parent, t.kids, m, p, t'.parent, t'.kids);
    AttachCounts(t.parent, t.at, t.mounted, m, p, d, t'.parent, t'.at, t'.mounted);
    AttachClimbs(t.parent, depth, m, p, t'.parent);
  }

  lemma MoveRoot(parent: map<nat, nat>, g: nat, m: nat, p: nat, parent': map<nat, nat>, parent'': map<nat, nat>)
    requires OnlyRoot(parent, g) && m in parent && m != g && p != m
    requires parent' == parent[m := m] && parent'' == parent'[m := p]
    ensures OnlyRoot(parent'', g)
  {}

  // ----- moving a mount -----

  // do_move_mount once its checks have passed: t1 detached, t2 attached again. A
  // move to a place not under m keeps every chain of parents ending at g.
  lemma {:induction false} MoveKeepsTree(t: Mounts, g: nat, depth: map<nat, nat>, m: nat, p: nat, d: nat,
                                         t1: Mounts, t2: Mounts)
    requires Wf(t, g, depth) && m in t.parent && m != g && p in t.parent && d in t.mounted
    requires !Under(t.parent, depth, p, m)
    requires t.parent[m] in t.kids && t.at[m] in t.mounted && t1 == Detach(t, m)
    requires p in t1.kids && d in t1.mounted && t2 == Attach(t1, m, p, d)
    ensures p in depth && Climbs(t1.parent, depth) && Wf(t2, g, MovedDepth(t1.parent, depth, m, p))
  {
    assert Climb(t.parent, depth, p);
    DetachForest(t, depth, m, t1);
    DetachUnder(t.parent, depth, m, p, t1.parent);
    AttachForest(t1, depth, m, p, d, t2);
    MoveRoot(t.parent, g, m, p, t1.parent, t2.parent);
  }

  // What a move leaves, field by field: m goes from its place among the children of its
  // parent to the end of those of p, and nobody else changes place.
  ghost predicate Moved(t: Mounts, m: nat, p: nat, d: nat, t': Mounts)
    requires m in t.parent && m in t.at
  {
    var q := t.parent[m];
    && t'.parent == t.parent[m := p] && t'.at == t.at[m := d] && t'.top == t.top
    && p in t.kids && q in t.kids && t'.kids.Keys == t.kids.Keys
    && TakenOut(t.kids[q], m, t'.kids[q], if p == q then [m] else [])
    && (p != q ==> t'.kids[p] == t.kids[p] + [m])
    && (forall x :: x in t.kids && x != p && x != q ==> t'.kids[x] == t.kids[x])
    && t'.mounted.Keys == t.mounted.Keys
    && forall e :: e in t.mounted ==>
         t'.mounted[e] == t.mounted[e] + (if e == d then 1 else 0) - (if e == t.at[m] then 1 else 0)
  }

  ghost predicate TakenOut(s: seq<nat>, m: nat, s': seq<nat>, more: seq<nat>) {
    exists i :: 0 <= i < |s| && s[i] == m && s' == s[..i] + s[i + 1..] + more
  }

  lemma {:induction false} MoveExact(t: Mounts, m: nat, p: nat, d: nat, t1: Mounts, t2: Mounts)
    requires m in t.parent && p in t.kids && d in t.mounted && m in t.at && m in t.top
    requires t.parent[m] in t.kids && m in t.kids[t.parent[m]] && t.at[m] in t.mounted
    requires t1 == Detach(t, m) && t2 == Attach(t1, m, p, d)
    ensures Moved(t, m, p, d, t2)
  {
    KidsMoved(t.kids, t.parent[m], m, p, t2.kids);
  }

  lemma KidsMoved(kids: map<nat, seq<nat>>, q: nat, m: nat, p: nat, kids': map<nat, seq<nat>>)
    requires p in kids && q in kids && m in kids[q]
    requires var rest := kids[q := Without(kids[q], m)]; kids' == rest[p := rest[p] + [m]]
    ensures TakenOut(kids[q], m, kids'[q], if p == q then [m] else [])
    ensures p != q ==> kids'[p] == kids[p] + [m]
  {
    var i := WithoutSplit(kids[q], m);
    assert kids[q][i] == m;
  }

  // A move to a place under m would leave no way up to the root from m: either no
  // depth falls along the parents, or m has become a root of its own.
  lemma {:induction false} MoveUnderItselfLoops(parent: map<nat, nat>, depth: map<nat, nat>, m: nat, p: nat,
                                                depth': map<nat, nat>)
    requires Climbs(parent, depth) && m in parent && p in parent && Under(parent, depth, p, m)
    ensures !Climbs(parent[m := p], depth') || parent[m := p][m] == m
  {
    if Climbs(parent[m := p], depth') && p != m {
      assert Climb(parent[m := p], depth', m);
      FallsBelow(parent, depth, m, p, depth', p);
    }
  }

  lemma {:induction false} FallsBelow(parent: map<nat, nat>, depth: map<nat, nat>, m: nat, p: nat,
                                      depth': map<nat, nat>, x: nat)
    requires Climbs(parent, depth) && m in parent && x in parent && x != m && Under(parent, depth, x, m)
    requires Climbs(parent[m := p], depth')
    ensures m in depth' && x in depth' && depth'[m] < depth'[x]
    decreases if x in depth then depth[x] else 0
  {
    assert Climb(parent, depth, x) && Climb(parent[m := p], depth', x) && Climb(parent[m := p], depth', m);
    if parent[x] != m {
      FallsBelow(parent, depth, m, p, depth', parent[x]);
    }
  }
}
