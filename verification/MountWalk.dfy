// The preorder of a mount's subtree, and how a walk without a stack follows it.
module MountWalk {
  import opened Lists
  import opened MountSpec

  datatype Shape = Shape(parent: map<nat, nat>, kids: map<nat, seq<nat>>, depth: map<nat, nat>, height: nat)

  ghost predicate Shaped(f: Shape) {
    && Climbs(f.parent, f.depth) && KidsFit(f.parent, f.kids)
    && forall m :: m in f.depth ==> f.depth[m] <= f.height
  }

  // s are children of m.
  ghost predicate ChildrenOf(f: Shape, m: nat, s: seq<nat>) {
    m in f.parent && m in f.depth && forall c :: c in s ==> Child(f, m, c)
  }

  ghost predicate Child(f: Shape, m: nat, c: nat) {
    && c in f.parent && f.parent[c] == m && c != m
    && c in f.depth && m in f.depth && f.depth[m] < f.depth[c] <= f.height
  }

  lemma KidsAreChildren(f: Shape, m: nat)
    requires Shaped(f) && m in f.parent
    ensures m in f.kids && ChildrenOf(f, m, f.kids[m])
  {
    assert Climb(f.parent, f.depth, m) && KidsOf(f.parent, m, f.kids[m]);
    forall c | c in f.kids[m] ensures Child(f, m, c) { assert Climb(f.parent, f.depth, c); }
  }

  // The subtree of m, every mount before its children, children in order.
  ghost function Pre(f: Shape, m: nat): seq<nat>
    requires Shaped(f) && m in f.parent
    decreases if m in f.depth then f.height - f.depth[m] else 0, 1, 0
  {
    KidsAreChildren(f, m);
    [m] + PreList(f, m, f.kids[m])
  }

  ghost function PreList(f: Shape, m: nat, s: seq<nat>): seq<nat>
    requires Shaped(f) && ChildrenOf(f, m, s)
    decreases if m in f.depth then f.height - f.depth[m] else 0, 0, |s|
  {
    if s == [] then []
    else
      assert Child(f, m, s[0]);
      Pre(f, s[0]) + PreList(f, m, s[1..])
  }

  // What the walk of r's subtree still has to visit once p's subtree is done.
  ghost function After(f: Shape, p: nat, r: nat): seq<nat>
    requires Shaped(f) && p in f.parent && Under(f.parent, f.depth, p, r)
    decreases if p in f.depth then f.depth[p] else 0
  {
    assert Climb(f.parent, f.depth, p);
    if p == r then []
    else
      var q := f.parent[p];
      assert KidsOf(f.parent, q, f.kids[q]);
      KidsAreChildren(f, q);
      PreList(f, q, Later(f.kids[q], p)) + After(f, q, r)
  }

  // What it still has to visit after p itself.
  ghost function Rest(f: Shape, p: nat, r: nat): seq<nat>
    requires Shaped(f) && p in f.parent && Under(f.parent, f.depth, p, r)
  {
    KidsAreChildren(f, p);
    PreList(f, p, f.kids[p]) + After(f, p, r)
  }

  // Once child c of q is done, the later children and then what is left after q.
  lemma AfterChild(f: Shape, q: nat, r: nat, c: nat)
    requires Shaped(f) && q in f.parent && Under(f.parent, f.depth, q, r) && q in f.kids && c in f.kids[q]
    ensures c in f.parent && f.parent[c] == q && c != r && Under(f.parent, f.depth, c, r)
    ensures ChildrenOf(f, q, Later(f.kids[q], c))
    ensures After(f, c, r) == PreList(f, q, Later(f.kids[q], c)) + After(f, q, r)
  {
    KidsAreChildren(f, q);
    assert Child(f, q, c);
    assert Climb(f.parent, f.depth, c) && KidsOf(f.parent, q, f.kids[q]);
    NotUnder(f.parent, f.depth, c, r);
  }

  lemma ListHead(f: Shape, q: nat, s: seq<nat>)
    requires Shaped(f) && ChildrenOf(f, q, s) && s != []
    ensures s[0] in f.parent && s[0] in f.kids && ChildrenOf(f, s[0], f.kids[s[0]])
    ensures PreList(f, q, s) == [s[0]] + PreList(f, s[0], f.kids[s[0]]) + PreList(f, q, s[1..])
  {
    assert Child(f, q, s[0]);
    KidsAreChildren(f, s[0]);
  }

  // Going up from p, whose subtree is done, to its next sibling.
  lemma SiblingNext(f: Shape, q: nat, r: nat, i: nat, p: nat, c: nat)
    requires Shaped(f) && q in f.parent && Under(f.parent, f.depth, q, r) && q in f.kids && i + 1 < |f.kids[q]|
    requires p == f.kids[q][i] && c == f.kids[q][i + 1] && p in f.parent && Under(f.parent, f.depth, p, r)
    ensures c in f.parent && Under(f.parent, f.depth, c, r) && After(f, p, r) == [c] + Rest(f, c, r)
  {
    var s, later := f.kids[q][i + 1..], f.kids[q][i + 2..];
    assert KidsOf(f.parent, q, f.kids[q]);
    AfterChild(f, q, r, p);
    AfterChild(f, q, r, c);
    LaterAt(f.kids[q], i);
    LaterAt(f.kids[q], i + 1);
    assert s[0] == c && s[1..] == later;
    ListHead(f, q, s);
    Reassociate(c, PreList(f, c, f.kids[c]), PreList(f, q, later), After(f, q, r));
  }

  lemma Reassociate(c: nat, a: seq<nat>, b: seq<nat>, d: seq<nat>)
    ensures [c] + a + b + d == [c] + (a + (b + d))
  {}

  lemma {:induction false} UnderDeeper(parent: map<nat, nat>, depth: map<nat, nat>, x: nat, m: nat)
    requires Climbs(parent, depth) && x in parent && Under(parent, depth, x, m)
    ensures m in parent && m in depth && x in depth && depth[m] <= depth[x] && (x != m ==> depth[m] < depth[x])
    decreases if x in depth then depth[x] else 0
  {
    assert Climb(parent, depth, x);
    if x != m {
      UnderDeeper(parent, depth, parent[x], m);
    }
  }

  // A child of something under r is not r.
  lemma NotUnder(parent: map<nat, nat>, depth: map<nat, nat>, c: nat, r: nat)
    requires Climbs(parent, depth) && c in parent && parent[c] != c && parent[c] in parent
    requires Under(parent, depth, parent[c], r)
    ensures c != r && Under(parent, depth, c, r)
  {
    assert Climb(parent, depth, c);
    UnderDeeper(parent, depth, parent[c], r);
  }

  // ----- what is in the preorder -----

  lemma {:induction false} PreUnder(f: Shape, m: nat, x: nat)
    requires Shaped(f) && m in f.parent && x in Pre(f, m)
    ensures x in f.parent && Under(f.parent, f.depth, x, m)
    decreases if m in f.depth then f.height - f.depth[m] else 0, 1, 0
  {
    KidsAreChildren(f, m);
    if x != m {
      var c := PreListUnder(f, m, f.kids[m], x);
      UnderTrans(f.parent, f.depth, x, c, m);
    }
  }

  lemma {:induction false} PreListUnder(f: Shape, m: nat, s: seq<nat>, x: nat) returns (c: nat)
    requires Shaped(f) && ChildrenOf(f, m, s) && x in PreList(f, m, s)
    ensures c in s && x in f.parent && Under(f.parent, f.depth, x, c)
    decreases if m in f.depth then f.height - f.depth[m] else 0, 0, |s|
  {
    assert Child(f, m, s[0]);
    if x in Pre(f, s[0]) {
      PreUnder(f, s[0], x);
      c := s[0];
    } else {
      c := PreListUnder(f, m, s[1..], x);
    }
  }

  // x under c, and c a child of m.
  lemma {:induction false} UnderTrans(parent: map<nat, nat>, depth: map<nat, nat>, x: nat, c: nat, m: nat)
    requires Climbs(parent, depth) && x in parent && c in parent && parent[c] == m && c != m
    requires Under(parent, depth, x, c)
    ensures Under(parent, depth, x, m)
    decreases if x in depth then depth[x] else 0
  {
    assert Climb(parent, depth, x) && Climb(parent, depth, c);
    if x != c {
      UnderTrans(parent, depth, parent[x], c, m);
    } else {
      assert Under(parent, depth, m, m);
    }
  }

  // Everything under m is visited.
  lemma {:induction false} UnderPre(f: Shape, m: nat, x: nat)
    requires Shaped(f) && m in f.parent && x in f.parent && Under(f.parent, f.depth, x, m)
    ensures x in Pre(f, m)
    decreases if x in f.depth then f.depth[x] else 0
  {
    assert Climb(f.parent, f.depth, x);
    KidsAreChildren(f, m);
    if x != m {
      UnderPre(f, m, f.parent[x]);
      PreClosed(f, m, f.parent[x], x);
    }
  }

  lemma {:induction false} PreClosed(f: Shape, m: nat, y: nat, x: nat)
    requires Shaped(f) && m in f.parent && y in Pre(f, m) && x in f.parent && f.parent[x] == y && x != y
    ensures x in Pre(f, m)
    decreases if m in f.depth then f.height - f.depth[m] else 0, 1, 0
  {
    KidsAreChildren(f, m);
    if y == m {
      assert KidsOf(f.parent, m, f.kids[m]);
      HeadIn(f, m, f.kids[m], x);
    } else {
      PreListClosed(f, m, f.kids[m], y, x);
    }
  }

  lemma {:induction false} HeadIn(f: Shape, m: nat, s: seq<nat>, x: nat)
    requires Shaped(f) && ChildrenOf(f, m, s) && x in s
    ensures x in PreList(f, m, s)
  {
    assert Child(f, m, s[0]);
    if x != s[0] {
      HeadIn(f, m, s[1..], x);
    } else {
      KidsAreChildren(f, x);
      assert x in Pre(f, x);
    }
  }

  lemma {:induction false} PreListClosed(f: Shape, m: nat, s: seq<nat>, y: nat, x: nat)
    requires Shaped(f) && ChildrenOf(f, m, s) && y in PreList(f, m, s) && x in f.parent && f.parent[x] == y && x != y
    ensures x in PreList(f, m, s)
    decreases if m in f.depth then f.height - f.depth[m] else 0, 0, |s|
  {
    assert Child(f, m, s[0]);
    if y in Pre(f, s[0]) {
      PreClosed(f, s[0], y, x);
    } else {
      PreListClosed(f, m, s[1..], y, x);
    }
  }

  // ----- each mount once, parents first -----

  ghost predicate ParentsFirst(parent: map<nat, nat>, m: nat, l: seq<nat>) {
    forall i :: 0 <= i < |l| ==> l[i] in parent && (parent[l[i]] == m || parent[l[i]] in l[..i])
  }

  lemma ParentsFirstCons(parent: map<nat, nat>, m: nat, c: nat, l: seq<nat>)
    requires c in parent && parent[c] == m && ParentsFirst(parent, c, l)
    ensures ParentsFirst(parent, m, [c] + l)
  {
    var l' := [c] + l;
    forall i | 0 <= i < |l'| ensures l'[i] in parent && (parent[l'[i]] == m || parent[l'[i]] in l'[..i]) {
      if i > 0 {
        assert l'[i] == l[i - 1] && l'[..i] == [c] + l[..i - 1];
      }
    }
  }

  lemma ParentsFirstAppend(parent: map<nat, nat>, m: nat, a: seq<nat>, b: seq<nat>)
    requires ParentsFirst(parent, m, a) && ParentsFirst(parent, m, b)
    ensures ParentsFirst(parent, m, a + b)
  {
    var l := a + b;
    forall i | 0 <= i < |l| ensures l[i] in parent && (parent[l[i]] == m || parent[l[i]] in l[..i]) {
      if i < |a| {
        assert l[..i] == a[..i];
      } else {
        assert l[..i] == a + b[..i - |a|];
      }
    }
  }

  lemma {:induction false} PreParentsFirst(f: Shape, m: nat)
    requires Shaped(f) && m in f.parent
    ensures Pre(f, m) != [] && Pre(f, m)[0] == m && ParentsFirst(f.parent, m, Pre(f, m)[1..])
    decreases if m in f.depth then f.height - f.depth[m] else 0, 1, 0
  {
    KidsAreChildren(f, m);
    PreListParentsFirst(f, m, f.kids[m]);
    assert Pre(f, m)[1..] == PreList(f, m, f.kids[m]);
  }

  lemma {:induction false} PreListParentsFirst(f: Shape, m: nat, s: seq<nat>)
    requires Shaped(f) && ChildrenOf(f, m, s)
    ensures ParentsFirst(f.parent, m, PreList(f, m, s))
    decreases if m in f.depth then f.height - f.depth[m] else 0, 0, |s|
  {
    if s != [] {
      assert Child(f, m, s[0]);
      PreParentsFirst(f, s[0]);
      PreListParentsFirst(f, m, s[1..]);
      var p := Pre(f, s[0]);
      ParentsFirstCons(f.parent, m, s[0], p[1..]);
      assert p == [s[0]] + p[1..];
      ParentsFirstAppend(f.parent, m, p, PreList(f, m, s[1..]));
    }
  }

  lemma {:induction false} NoDupsConcat(a: seq<nat>, b: seq<nat>)
    requires NoDups(a) && NoDups(b) && forall x :: x in a ==> x !in b
    ensures NoDups(a + b)
  {
    if a != [] {
      NoDupsConcat(a[1..], b);
      assert (a + b)[1..] == a[1..] + b;
    } else {
      assert a + b == b;
    }
  }

  lemma {:induction false} PreOnce(f: Shape, m: nat)
    requires Shaped(f) && m in f.parent
    ensures NoDups(Pre(f, m))
    decreases if m in f.depth then f.height - f.depth[m] else 0, 1, 0
  {
    KidsAreChildren(f, m);
    var s := f.kids[m];
    assert KidsOf(f.parent, m, s);
    PreListOnce(f, m, s);
    if m in PreList(f, m, s) {
      var c := PreListUnder(f, m, s, m);
      assert Child(f, m, c);
      UnderDeeper(f.parent, f.depth, m, c);
      assert false;
    }
    assert Pre(f, m)[1..] == PreList(f, m, s);
  }

  lemma {:induction false} PreListOnce(f: Shape, m: nat, s: seq<nat>)
    requires Shaped(f) && ChildrenOf(f, m, s) && NoDups(s)
    ensures NoDups(PreList(f, m, s))
    decreases if m in f.depth then f.height - f.depth[m] else 0, 0, |s|
  {
    if s != [] {
      assert Child(f, m, s[0]);
      PreOnce(f, s[0]);
      PreListOnce(f, m, s[1..]);
      forall x | x in Pre(f, s[0]) ensures x !in PreList(f, m, s[1..]) {
        if x in PreList(f, m, s[1..]) {
          PreUnder(f, s[0], x);
          var c := PreListUnder(f, m, s[1..], x);
          assert Child(f, m, c);
          OneChild(f.parent, f.depth, x, s[0], c, m);
          assert false;
        }
      }
      NoDupsConcat(Pre(f, s[0]), PreList(f, m, s[1..]));
    }
  }

  // A mount is under at most one child of m.
  lemma {:induction false} OneChild(parent: map<nat, nat>, depth: map<nat, nat>, x: nat, a: nat, b: nat, m: nat)
    requires Climbs(parent, depth) && x in parent && a in parent && b in parent
    requires parent[a] == m == parent[b] && a != m && b != m
    requires Under(parent, depth, x, a) && Under(parent, depth, x, b)
    ensures a == b
    decreases if x in depth then depth[x] else 0
  {
    assert Climb(parent, depth, x) && Climb(parent, depth, a) && Climb(parent, depth, b);
    if x == a {
      if a != b {
        UnderDeeper(parent, depth, m, b);
      }
    } else if x == b {
      UnderDeeper(parent, depth, m, a);
    } else {
      OneChild(parent, depth, parent[x], a, b, m);
    }
  }

  // ----- siblings in the order of their list -----

  ghost predicate Precedes(s: seq<nat>, x: nat, y: nat) {
    exists i, j :: 0 <= i < j < |s| && s[i] == x && s[j] == y
  }

  lemma PrecedesWithin(a: seq<nat>, s: seq<nat>, b: seq<nat>, x: nat, y: nat)
    requires Precedes(s, x, y)
    ensures Precedes(a + s + b, x, y)
  {
    var i, j :| 0 <= i < j < |s| && s[i] == x && s[j] == y;
    var t := a + s + b;
    assert t[|a| + i] == x && t[|a| + j] == y;
  }

  lemma PrecedesAcross(a: seq<nat>, b: seq<nat>, x: nat, y: nat)
    requires x in a && y in b
    ensures Precedes(a + b, x, y)
  {
    var i :| 0 <= i < |a| && a[i] == x;
    var j :| 0 <= j < |b| && b[j] == y;
    assert (a + b)[i] == x && (a + b)[|a| + j] == y;
  }

  // The preorder goes through the children of a mount, each with all its subtree,
  // in the order of their list.
  lemma {:induction false} PreInOrder(f: Shape, m: nat, q: nat, i: nat, j: nat, x: nat, y: nat)
    requires Shaped(f) && m in f.parent && q in f.parent && Under(f.parent, f.depth, q, m)
    requires q in f.kids && i < j < |f.kids[q]|
    requires f.kids[q][i] in f.parent && x in f.parent && Under(f.parent, f.depth, x, f.kids[q][i])
    requires f.kids[q][j] in f.parent && y in f.parent && Under(f.parent, f.depth, y, f.kids[q][j])
    ensures Precedes(Pre(f, m), x, y)
  {
    KidsAreChildren(f, q);
    UnderPre(f, f.kids[q][i], x);
    UnderPre(f, f.kids[q][j], y);
    ListInOrder(f, q, f.kids[q], i, j, x, y);
    PrecedesWithin([q], PreList(f, q, f.kids[q]), [], x, y);
    assert [q] + PreList(f, q, f.kids[q]) + [] == Pre(f, q);
    PreKeeps(f, m, q, x, y);
  }

  lemma {:induction false} ListInOrder(f: Shape, m: nat, s: seq<nat>, i: nat, j: nat, x: nat, y: nat)
    requires Shaped(f) && ChildrenOf(f, m, s) && i < j < |s| && s[i] in f.parent && s[j] in f.parent
    requires x in Pre(f, s[i]) && y in Pre(f, s[j])
    ensures Precedes(PreList(f, m, s), x, y)
  {
    assert Child(f, m, s[0]);
    var head, rest := Pre(f, s[0]), s[1..];
    if i == 0 {
      InList(f, m, rest, j - 1, y);
      PrecedesAcross(head, PreList(f, m, rest), x, y);
    } else {
      ListInOrder(f, m, rest, i - 1, j - 1, x, y);
      PrecedesWithin(head, PreList(f, m, rest), [], x, y);
      assert head + PreList(f, m, rest) + [] == PreList(f, m, s);
    }
  }

  lemma {:induction false} InList(f: Shape, m: nat, s: seq<nat>, j: nat, y: nat)
    requires Shaped(f) && ChildrenOf(f, m, s) && j < |s| && s[j] in f.parent && y in Pre(f, s[j])
    ensures y in PreList(f, m, s)
  {
    assert Child(f, m, s[0]);
    if j > 0 {
      InList(f, m, s[1..], j - 1, y);
    }
  }

  // What comes first under q comes first under everything above q.
  lemma {:induction false} PreKeeps(f: Shape, m: nat, q: nat, x: nat, y: nat)
    requires Shaped(f) && m in f.parent && q in f.parent && Under(f.parent, f.depth, q, m)
    requires Precedes(Pre(f, q), x, y)
    ensures Precedes(Pre(f, m), x, y)
    decreases if q in f.depth then f.depth[q] else 0
  {
    assert Climb(f.parent, f.depth, q);
    if q != m {
      var p := f.parent[q];
      KidsAreChildren(f, p);
      assert KidsOf(f.parent, p, f.kids[p]);
      ListKeeps(f, p, f.kids[p], q, x, y);
      PrecedesWithin([p], PreList(f, p, f.kids[p]), [], x, y);
      assert [p] + PreList(f, p, f.kids[p]) + [] == Pre(f, p);
      PreKeeps(f, m, p, x, y);
    }
  }

  lemma {:induction false} ListKeeps(f: Shape, m: nat, s: seq<nat>, q: nat, x: nat, y: nat)
    requires Shaped(f) && ChildrenOf(f, m, s) && q in s && q in f.parent && Precedes(Pre(f, q), x, y)
    ensures Precedes(PreList(f, m, s), x, y)
  {
    assert Child(f, m, s[0]);
    var head, rest := Pre(f, s[0]), PreList(f, m, s[1..]);
    if q == s[0] {
      PrecedesWithin([], head, rest, x, y);
      assert [] + head + rest == PreList(f, m, s);
    } else {
      ListKeeps(f, m, s[1..], q, x, y);
      PrecedesWithin(head, rest, [], x, y);
      assert head + rest + [] == PreList(f, m, s);
    }
  }
}
