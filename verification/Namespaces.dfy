// Moving a mount and taking a subtree of mounts down.
module Namespaces {
  import opened Options
  import opened Lists
  import opened MountSpec
  import opened MountWalk

  datatype Error = Success | Invalid | Loop

  function Rev(s: seq<nat>): (r: seq<nat>)
    ensures |r| == |s|
  {
    if s == [] then [] else Rev(s[1..]) + [s[0]]
  }

  // A detached mount without children is freed.
  function Freed(t: Mounts, m: nat): Mounts {
    Mounts(t.parent - {m}, t.kids - {m}, t.at - {m}, t.top - {m}, t.mounted)
  }

  lemma FreeClimbs(parent: map<nat, nat>, depth: map<nat, nat>, m: nat, parent': map<nat, nat>)
    requires Climbs(parent, depth) && m in parent && parent' == parent - {m}
    requires forall c :: c in parent && c != m ==> parent[c] != m
    ensures Climbs(parent', depth)
  {
    forall x | x in parent' ensures Climb(parent', depth, x) { assert Climb(parent, depth, x); }
  }

  lemma FreeKids(parent: map<nat, nat>, kids: map<nat, seq<nat>>, m: nat,
                 parent': map<nat, nat>, kids': map<nat, seq<nat>>)
    requires KidsFit(parent, kids) && m in parent && parent[m] == m && kids[m] == []
    requires parent' == parent - {m} && kids' == kids - {m}
    ensures KidsFit(parent', kids') && forall c :: c in parent && c != m ==> parent[c] != m
  {
    assert KidsOf(parent, m, kids[m]);
    forall x | x in kids' ensures KidsOf(parent', x, kids'[x]) { assert KidsOf(parent, x, kids[x]); }
  }

  lemma FreeCounts(parent: map<nat, nat>, at: map<nat, nat>, mounted: map<nat, int>, m: nat,
                   parent': map<nat, nat>, at': map<nat, nat>)
    requires CountsFit(parent, at, mounted) && m in parent && parent[m] == m
    requires parent' == parent - {m} && at' == at - {m}
    ensures CountsFit(parent', at', mounted)
  {
    forall d | d in mounted ensures AttachedAt(parent', at', d) == AttachedAt(parent, at, d) {}
  }

  lemma FreeForest(t: Mounts, depth: map<nat, nat>, m: nat, t': Mounts)
    requires Forest(t, depth) && m in t.parent && t.parent[m] == m && m in t.kids && t.kids[m] == []
    requires t' == Freed(t, m)
    ensures Forest(t', depth)
  {
    FreeKids(t.parent, t.kids, m, t'.parent, t'.kids);
    FreeCounts(t.parent, t.at, t.mounted, m, t'.parent, t'.at);
    FreeClimbs(t.parent, depth, m, t'.parent);
  }

  // The mounts of a subtree that are still there when all but the first n of its
  // preorder are gone.
  ghost predicate Left(parent: map<nat, nat>, order: seq<nat>, n: nat, parent': map<nat, nat>) {
    && n <= |order|
    && (forall x :: x in parent' <==> x in parent && (x in order ==> IndexOf(order, x) < n))
    && (forall x :: x in parent' ==> parent'[x] == parent[x])
  }

  lemma ParentBefore(parent: map<nat, nat>, order: seq<nat>, i: nat)
    requires order != [] && ParentsFirst(parent, order[0], order[1..]) && 0 < i < |order|
    ensures order[i] in parent && parent[order[i]] in order[..i]
  {
    var l := order[1..];
    assert l[i - 1] == order[i] && l[..i - 1] == order[1..i] && order[..i] == [order[0]] + order[1..i];
  }

  lemma LastUnseen(s: seq<nat>, n: nat, i: nat)
    requires NoDups(s) && i < n <= |s|
    ensures s[n - 1] !in s[..i]
  {
    forall k | 0 <= k < i ensures s[k] != s[n - 1] { NoDupsAt(s, k, n - 1); }
  }

  // No mount under m is m's parent.
  lemma NotOwnParent(parent: map<nat, nat>, depth: map<nat, nat>, x: nat, m: nat)
    requires Climbs(parent, depth) && x in parent && Under(parent, depth, x, m) && m in parent && parent[m] != m
    ensures parent[m] != x
  {
    UnderDeeper(parent, depth, x, m);
    assert Climb(parent, depth, m);
  }

  // s without what is no longer alive, in its order.
  function Kept(s: seq<nat>, alive: set<nat>): seq<nat> {
    if s == [] then [] else (if s[0] in alive then [s[0]] else []) + Kept(s[1..], alive)
  }

  lemma {:induction false} KeptAll(s: seq<nat>, alive: set<nat>)
    requires forall x :: x in s ==> x in alive
    ensures Kept(s, alive) == s
  {
    if s != [] {
      KeptAll(s[1..], alive);
    }
  }

  lemma {:induction false} KeptOthers(s: seq<nat>, alive: set<nat>, x: nat)
    requires x !in s
    ensures Kept(s, alive - {x}) == Kept(s, alive)
  {
    if s != [] {
      KeptOthers(s[1..], alive, x);
    }
  }

  lemma {:induction false} KeptWithout(s: seq<nat>, alive: set<nat>, x: nat)
    requires NoDups(s) && x in alive
    ensures Kept(s, alive - {x}) == Without(Kept(s, alive), x)
  {
    if s != [] {
      var r, r' := Kept(s[1..], alive), Kept(s[1..], alive - {x});
      if s[0] == x {
        KeptOthers(s[1..], alive, x);
        assert Kept(s, alive) == [x] + r && Kept(s, alive - {x}) == r';
      } else if s[0] in alive {
        KeptWithout(s[1..], alive, x);
        assert Kept(s, alive) == [s[0]] + r && Kept(s, alive - {x}) == [s[0]] + r';
      } else {
        KeptWithout(s[1..], alive, x);
        assert Kept(s, alive) == r && Kept(s, alive - {x}) == r';
      }
    }
  }

  // The mounts still there are as they were, but for the children that are gone.
  ghost predicate Trimmed(t0: Mounts, t: Mounts) {
    forall y {:trigger TrimmedAt(t0, t, y)} :: y in t.parent ==> TrimmedAt(t0, t, y)
  }

  ghost predicate TrimmedAt(t0: Mounts, t: Mounts, y: nat) {
    && y in t0.parent && y in t.parent && t.parent[y] == t0.parent[y]
    && y in t0.at && y in t.at && t.at[y] == t0.at[y] && y in t0.top && y in t.top && t.top[y] == t0.top[y]
    && y in t0.kids && y in t.kids && t.kids[y] == Kept(t0.kids[y], t.parent.Keys)
  }

  lemma StartTrimmed(t: Mounts, depth: map<nat, nat>)
    requires Forest(t, depth)
    ensures Trimmed(t, t)
  {
    forall y | y in t.parent ensures TrimmedAt(t, t, y) {
      assert KidsOf(t.parent, y, t.kids[y]);
      KeptAll(t.kids[y], t.parent.Keys);
    }
  }

  lemma TrimmedStep(t0: Mounts, depth: map<nat, nat>, t: Mounts, x: nat, t': Mounts)
    requires Forest(t0, depth) && Trimmed(t0, t) && x in t.parent && t.parent[x] != x
    requires t.parent[x] in t.kids && x in t.at && x in t.top && t.at[x] in t.mounted
    requires t' == Freed(Detach(t, x), x)
    ensures Trimmed(t0, t')
  {
    assert TrimmedAt(t0, t, x);
    forall y | y in t'.parent ensures TrimmedAt(t0, t', y) {
      assert TrimmedAt(t0, t, y) && KidsOf(t0.parent, y, t0.kids[y]);
      assert t'.parent.Keys == t.parent.Keys - {x};
      if y == t.parent[x] {
        KeptWithout(t0.kids[y], t.parent.Keys, x);
      } else {
        KeptOthers(t0.kids[y], t.parent.Keys, x);
      }
    }
  }

  // The last mount left has no children left.
  lemma {:induction false} LastHasNoKids(f: Shape, m: nat, order: seq<nat>, n: nat, parent': map<nat, nat>,
                                         x: nat, c: nat)
    requires Shaped(f) && m in f.parent && f.parent[m] != m && order == Pre(f, m)
    requires 0 < n <= |order| && Left(f.parent, order, n, parent') && x == order[n - 1] && c in parent'
    requires parent'[c] == x
    ensures c == x
  {
    PreOnce(f, m);
    PreParentsFirst(f, m);
    PreUnder(f, m, x);
    if c != x {
      PreClosed(f, m, x, c);
      NotOwnParent(f.parent, f.depth, x, m);
      var i := IndexOf(order, c);
      ParentBefore(f.parent, order, i);
      LastUnseen(order, n, i);
    }
  }

  class Namespace {
    const g: nat
    var t: Mounts
    ghost var depth: map<nat, nat>
    ghost var height: nat

    ghost predicate Valid()
      reads this
    {
      Wf(t, g, depth) && forall m :: m in depth ==> depth[m] <= height
    }

    ghost function Now(): Shape
      reads this
    {
      Shape(t.parent, t.kids, depth, height)
    }

    // Only the global root is mounted.
    constructor (g: nat, top: nat, mounted: set<nat>)
      ensures Valid() && this.g == g && t.parent == map[g := g] && t.mounted.Keys == mounted
    {
      this.g := g;
      t := Mounts(map[g := g], map[g := []], map[g := top], map[g := top], map d | d in mounted :: 0);
      depth, height := map[g := 0], 0;
      new;
      assert Climb(t.parent, depth, g) && KidsOf(t.parent, g, []);
      assert forall d :: d in mounted ==> AttachedAt(t.parent, t.at, d) == {};
    }

    // The climb of next_mnt: up to the first mount with a later sibling.
    method ClimbToSibling(p: nat, r: nat, ghost f: Shape) returns (next: Option<nat>)
      requires f == Now() && Shaped(f) && p in f.parent && Under(f.parent, f.depth, p, r)
      ensures next.None? ==> After(f, p, r) == []
      ensures next.Some? ==> next.value in f.parent && Under(f.parent, f.depth, next.value, r) &&
                             After(f, p, r) == [next.value] + Rest(f, next.value, r)
    {
      var x := p;
      while true
        invariant x in f.parent && Under(f.parent, f.depth, x, r) && After(f, p, r) == After(f, x, r)
        decreases if x in f.depth then f.depth[x] else 0
      {
        if x == r {
          return None;
        }
        assert Climb(f.parent, f.depth, x);
        var q := t.parent[x];
        assert KidsOf(f.parent, q, f.kids[q]);
        var i := IndexOf(t.kids[q], x);
        if i + 1 < |t.kids[q]| {
          var c := t.kids[q][i + 1];
          SiblingNext(f, q, r, i, x, c);
          return Some(c);
        }
        LastChild(f, q, r, i, x);
        x := q;
      }
    }

    // next_mnt: the next mount of the preorder of r's subtree, found by links alone.
    method NextMnt(p: nat, r: nat, ghost f: Shape) returns (next: Option<nat>)
      requires f == Now() && Shaped(f) && p in f.parent && Under(f.parent, f.depth, p, r)
      ensures next.None? ==> Rest(f, p, r) == []
      ensures next.Some? ==> next.value in f.parent && Under(f.parent, f.depth, next.value, r) &&
                             Rest(f, p, r) == [next.value] + Rest(f, next.value, r)
    {
      KidsAreChildren(f, p);
      if t.kids[p] != [] {
        var c := t.kids[p][0];
        FirstChild(f, p, r, c);
        next := Some(c);
      } else {
        LeafRest(f, p, r);
        next := ClimbToSibling(p, r, f);
      }
    }

    // The first loop of umount_tree: every mount of the subtree goes to the front of
    // the kill list.
    method Collect(m: nat, ghost f: Shape) returns (kill: seq<nat>)
      requires f == Now() && Shaped(f) && m in f.parent
      ensures Rev(kill) == Pre(f, m)
    {
      var p := Some(m);
      kill := [];
      PreIsRest(f, m);
      while p.Some?
        invariant p.Some? ==> p.value in f.parent && Under(f.parent, f.depth, p.value, m) &&
                              Rev(kill) + ([p.value] + Rest(f, p.value, m)) == Pre(f, m)
        invariant p.None? ==> Rev(kill) == Pre(f, m)
        decreases if p.Some? then 1 + |Pre(f, m)| - |kill| else 0
      {
        var x := p.value;
        ghost var done := Rev(kill);
        kill := [x] + kill;
        assert Rev(kill) == done + [x];
        p := NextMnt(x, m, f);
        if p.Some? {
          Reassoc(done, x, [p.value] + Rest(f, p.value, m));
        } else {
          assert done + ([x] + []) == done + [x];
        }
      }
    }

    // detach_mnt and mntput of one mount without children.
    method DropOne(x: nat, ghost was: Mounts)
      requires Forest(was, depth) && Trimmed(was, t)
      requires Forest(t, depth) && x in t.parent && t.parent[x] != x && x in t.kids && t.kids[x] == []
      modifies this`t
      ensures Forest(t, depth) && t.parent == old(t).parent[x := x] - {x}
      ensures Trimmed(was, t)
    {
      CanDetach(t, depth, x);
      ghost var t0 := t;
      t := Detach(t, x);
      DetachForest(t0, depth, x, t);
      DetachedKids(t0, depth, x, t);
      ghost var t1 := t;
      t := Freed(t, x);
      FreeForest(t1, depth, x, t);
      TrimmedStep(was, depth, t0, x, t);
    }

    // The last mount left of the subtree goes; it has no children left.
    method DropLast(x: nat, m: nat, ghost f: Shape, ghost pre: seq<nat>, ghost n: nat, ghost was: Mounts)
      requires Forest(was, depth) && Trimmed(was, t)
      requires Forest(t, depth) && Shaped(f) && m in f.parent && OnlyRoot(f.parent, g) && m != g && pre == Pre(f, m)
      requires n < |pre| && x == pre[n] && Left(f.parent, pre, n + 1, t.parent)
      modifies this`t
      ensures Forest(t, depth) && Left(f.parent, pre, n, t.parent) && Trimmed(was, t)
    {
      StillThere(f, m, pre, n, x, t.parent);
      NoKids(f, m, pre, n + 1, t, depth, x);
      KeepsRoot(f, m, g);
      ghost var parent := t.parent;
      DropOne(x, was);
      LeftStep(f.parent, pre, n, parent, x, t.parent);
    }

    // The second loop of umount_tree: detach_mnt and mntput, front to back. order is
    // what was detached and freed, in that order.
    method TearDown(m: nat, kill0: seq<nat>, ghost f: Shape) returns (order: seq<nat>)
      requires Valid() && f == Now() && m in f.parent && m != g && Rev(kill0) == Pre(f, m)
      modifies this`t
      ensures Valid() && order == kill0 && Left(f.parent, Pre(f, m), 0, t.parent) && Trimmed(old(t), t)
    {
      var kill := kill0;
      order := [];
      ghost var pre, was := Pre(f, m), t;
      StartTrimmed(t, depth);
      StartDown(f.parent, pre, kill0);
      while kill != []
        invariant Trimmed(was, t)
        invariant Forest(t, depth) && Progress(order, kill, kill0, pre) && Left(f.parent, pre, |kill|, t.parent)
      {
        var x, rest := kill[0], kill[1..];
        ProgressStep(order, kill, kill0, pre, x, rest);
        DropLast(x, m, f, pre, |rest|, was);
        kill, order := rest, order + [x];
      }
      KeepsRoot(f, m, g);
      RootLeft(f.parent, pre, g, t.parent);
    }

    // umount_tree on a mount other than the global root.
    method UmountTree(m: nat) returns (order: seq<nat>)
      requires Valid() && m in t.parent && m != g
      modifies this`t
      ensures Valid() && Shaped(old(Now())) && Rev(order) == Pre(old(Now()), m)
      ensures forall x :: x in t.parent <==> x in old(t).parent && !Under(old(t).parent, old(depth), x, m)
      ensures Trimmed(old(t), t)
    {
      ghost var f := Now();
      var kill := Collect(m, f);
      order := TearDown(m, kill, f);
      forall x | x in f.parent
        ensures x in Pre(f, m) <==> Under(f.parent, f.depth, x, m) {
        if x in Pre(f, m) { PreUnder(f, m, x); }
        if Under(f.parent, f.depth, x, m) { UnderPre(f, m, x); }
      }
    }

    // The check of do_move_mount: is m the target or above it? The global root is
    // not looked at; it is never moved.
    method IsAbove(m: nat, p: nat) returns (above: bool)
      requires Climbs(t.parent, depth) && p in t.parent && m in t.parent && t.parent[m] != m
      ensures above <==> Under(t.parent, depth, p, m)
    {
      assert Climb(t.parent, depth, p);
      var x := p;
      while t.parent[x] != x
        invariant x in t.parent && t.parent[x] in t.parent
        invariant Under(t.parent, depth, p, m) <==> Under(t.parent, depth, x, m)
        decreases if x in depth then depth[x] else 0
      {
        if x == m {
          return true;
        }
        assert Climb(t.parent, depth, x);
        x := t.parent[x];
        assert Climb(t.parent, depth, x);
      }
      above := false;
    }

    // do_move_mount, the paths being looked up: m is moved if it is the root of
    // what was named, is not the global root, and the target is not below it.
    method MoveMount(m: nat, dentry: nat, p: nat, d: nat) returns (err: Error)
      requires Valid() && m in t.parent && p in t.parent && d in t.mounted
      modifies this
      ensures Valid() && (err == Invalid <==> dentry != old(t).top[m] || old(t).parent[m] == m)
      ensures err == Loop <==>
        dentry == old(t).top[m] && old(t).parent[m] != m && Under(old(t).parent, old(depth), p, m)
      ensures err != Success ==> t == old(t)
      ensures err == Success ==> m in old(t).at && Moved(old(t), m, p, d, t)
    {
      if dentry != t.top[m] || m == t.parent[m] {
        return Invalid;
      }
      var above := IsAbove(m, p);
      if above {
        return Loop;
      }
      Relink(m, p, d);
      err := Success;
    }

    // detach_mnt and attach_mnt
    method Relink(m: nat, p: nat, d: nat)
      requires Valid() && m in t.parent && t.parent[m] != m && p in t.parent && d in t.mounted
      requires !Under(t.parent, depth, p, m)
      modifies this
      ensures Valid()
      ensures m in old(t).at && Moved(old(t), m, p, d, t)
    {
      CanDetach(t, depth, m);
      var t1 := Detach(t, m);
      CanAttach(t, depth, m, p, d, t1);
      var t2 := Attach(t1, m, p, d);
      MoveKeepsTree(t, g, depth, m, p, d, t1, t2);
      assert KidsOf(t.parent, t.parent[m], t.kids[t.parent[m]]);
      MoveExact(t, m, p, d, t1, t2);
      ghost var depth2 := MovedDepth(t1.parent, depth, m, p);
      MovedHeight(t1.parent, depth, m, p, height);
      t, depth, height := t2, depth2, 2 * height + 1;
    }
  }

  lemma MovedHeight(parent: map<nat, nat>, depth: map<nat, nat>, m: nat, p: nat, height: nat)
    requires Climbs(parent, depth) && p in depth && forall x :: x in depth ==> depth[x] <= height
    ensures forall x :: x in MovedDepth(parent, depth, m, p) ==> MovedDepth(parent, depth, m, p)[x] <= 2 * height + 1
  {}

  lemma CanDetach(t: Mounts, depth: map<nat, nat>, m: nat)
    requires Forest(t, depth) && m in t.parent && t.parent[m] != m
    ensures t.parent[m] in t.kids && m in t.at && m in t.top && t.at[m] in t.mounted
  {
    assert Climb(t.parent, depth, m);
  }

  lemma CanAttach(t: Mounts, depth: map<nat, nat>, m: nat, p: nat, d: nat, t1: Mounts)
    requires Forest(t, depth) && p in t.parent && d in t.mounted
    requires t.parent.Keys == t.kids.Keys && m in t.parent && t.parent[m] in t.kids && m in t.at && m in t.top
    requires t.at[m] in t.mounted && t1 == Detach(t, m)
    ensures p in t1.kids && d in t1.mounted
  {
    assert p in t.kids;
  }

  lemma PreIsRest(f: Shape, m: nat)
    requires Shaped(f) && m in f.parent
    ensures Under(f.parent, f.depth, m, m) && Pre(f, m) == [m] + Rest(f, m, m) && [] + Pre(f, m) == Pre(f, m)
  {
    KidsAreChildren(f, m);
    assert After(f, m, m) == [];
  }

  lemma Reassoc(a: seq<nat>, x: nat, b: seq<nat>)
    ensures a + ([x] + b) == a + [x] + b
  {}

  // order is done and kill is to do; what is to do is the front of the preorder,
  // back to front.
  ghost predicate Progress(order: seq<nat>, kill: seq<nat>, kill0: seq<nat>, pre: seq<nat>) {
    order + kill == kill0 && |kill| <= |pre| && Rev(kill) == pre[..|kill|]
  }

  lemma ProgressStep(order: seq<nat>, kill: seq<nat>, kill0: seq<nat>, pre: seq<nat>, x: nat, rest: seq<nat>)
    requires Progress(order, kill, kill0, pre) && kill != [] && x == kill[0] && rest == kill[1..]
    ensures |rest| + 1 == |kill| && x == pre[|rest|] && Progress(order + [x], rest, kill0, pre)
  {
    var r := Rev(rest);
    assert (r + [x])[|r|] == x && (r + [x])[..|r|] == r;
    assert kill == [x] + rest;
    assert (order + [x]) + rest == order + kill;
  }

  lemma StartDown(parent: map<nat, nat>, pre: seq<nat>, kill: seq<nat>)
    requires Rev(kill) == pre
    ensures Progress([], kill, kill, pre) && Left(parent, pre, |kill|, parent)
  {}

  lemma RootLeft(parent: map<nat, nat>, pre: seq<nat>, g: nat, parent': map<nat, nat>)
    requires OnlyRoot(parent, g) && g !in pre && Left(parent, pre, 0, parent')
    ensures OnlyRoot(parent', g)
  {}

  // The global root is under no other mount.
  lemma KeepsRoot(f: Shape, m: nat, g: nat)
    requires Shaped(f) && m in f.parent && OnlyRoot(f.parent, g) && m != g
    ensures g !in Pre(f, m)
  {
    if g in Pre(f, m) {
      PreUnder(f, m, g);
      assert false;
    }
  }

  lemma StillThere(f: Shape, m: nat, pre: seq<nat>, n: nat, x: nat, parent': map<nat, nat>)
    requires Shaped(f) && m in f.parent && pre == Pre(f, m) && n < |pre| && x == pre[n]
    requires Left(f.parent, pre, n + 1, parent')
    ensures x in pre && x in parent' && IndexOf(pre, x) == n
  {
    PreOnce(f, m);
    IndexUnique(pre, n);
    PreUnder(f, m, x);
  }

  lemma NoKids(f: Shape, m: nat, pre: seq<nat>, n: nat, t: Mounts, depth: map<nat, nat>, x: nat)
    requires Shaped(f) && m in f.parent && f.parent[m] != m && pre == Pre(f, m) && 0 < n <= |pre| && x == pre[n - 1]
    requires Left(f.parent, pre, n, t.parent) && Forest(t, depth) && x in t.parent
    ensures x in t.kids && t.kids[x] == []
  {
    assert KidsOf(t.parent, x, t.kids[x]);
    if t.kids[x] != [] {
      LastHasNoKids(f, m, pre, n, t.parent, x, t.kids[x][0]);
    }
  }

  lemma DetachedKids(t: Mounts, depth: map<nat, nat>, x: nat, t': Mounts)
    requires Forest(t, depth) && x in t.parent && t.parent[x] != x && t.parent[x] in t.kids && x in t.kids
    requires t.kids[x] == []
    requires x in t.at && x in t.top && t.at[x] in t.mounted && t' == Detach(t, x)
    ensures x in t'.kids && t'.kids[x] == [] && t'.parent == t.parent[x := x]
  {}

  lemma LeftStep(parent: map<nat, nat>, pre: seq<nat>, n: nat, p0: map<nat, nat>, x: nat, p1: map<nat, nat>)
    requires Left(parent, pre, n + 1, p0) && x in pre && IndexOf(pre, x) == n && x in p0
    requires p1 == p0[x := x] - {x}
    ensures Left(parent, pre, n, p1)
  {
    forall y | y in parent && y in pre && y != x
      ensures IndexOf(pre, y) != n {
    }
  }

  // Taken down in this order, every mount goes before its parent.
  lemma {:induction false} ChildrenGoFirst(f: Shape, m: nat, order: seq<nat>, i: nat)
    requires Shaped(f) && m in f.parent && Rev(order) == Pre(f, m) && i < |order| - 1
    ensures NoDups(Pre(f, m)) && order[i] in f.parent && f.parent[order[i]] in order[i + 1..]
  {
    PreOnce(f, m);
    PreParentsFirst(f, m);
    RevAt(order, i);
    ParentBefore(f.parent, Rev(order), |order| - 1 - i);
    RevTail(order, i, f.parent[order[i]]);
  }

  lemma {:induction false} RevAt(s: seq<nat>, i: nat)
    requires i < |s|
    ensures Rev(s)[|s| - 1 - i] == s[i]
  {
    if i > 0 {
      RevAt(s[1..], i - 1);
    }
  }

  lemma {:induction false} RevTail(s: seq<nat>, i: nat, x: nat)
    requires i < |s| && x in Rev(s)[..|s| - 1 - i]
    ensures x in s[i + 1..]
  {
    var k :| 0 <= k < |s| - 1 - i && Rev(s)[k] == x;
    RevAt(s, |s| - 1 - k);
    assert s[i + 1..][|s| - 1 - k - (i + 1)] == x;
  }

  lemma LeafRest(f: Shape, p: nat, r: nat)
    requires Shaped(f) && p in f.parent && Under(f.parent, f.depth, p, r) && p in f.kids && f.kids[p] == []
    ensures Rest(f, p, r) == After(f, p, r)
  {
    assert [] + After(f, p, r) == After(f, p, r);
  }

  // After the last child of q comes what is left after q.
  lemma LastChild(f: Shape, q: nat, r: nat, i: nat, x: nat)
    requires Shaped(f) && q in f.parent && Under(f.parent, f.depth, q, r) && q in f.kids && i + 1 == |f.kids[q]|
    requires x == f.kids[q][i] && x in f.parent && Under(f.parent, f.depth, x, r)
    ensures After(f, x, r) == After(f, q, r)
  {
    assert KidsOf(f.parent, q, f.kids[q]);
    AfterChild(f, q, r, x);
    LaterAt(f.kids[q], i);
    assert [] + After(f, q, r) == After(f, q, r);
  }

  lemma FirstChild(f: Shape, p: nat, r: nat, c: nat)
    requires Shaped(f) && p in f.parent && Under(f.parent, f.depth, p, r) && p in f.kids && f.kids[p] != []
    requires c == f.kids[p][0]
    ensures c in f.parent && Under(f.parent, f.depth, c, r) && Rest(f, p, r) == [c] + Rest(f, c, r)
  {
    KidsAreChildren(f, p);
    ListHead(f, p, f.kids[p]);
    AfterChild(f, p, r, c);
    Reassociate(c, PreList(f, c, f.kids[c]), PreList(f, p, f.kids[p][1..]), After(f, p, r));
  }
}
