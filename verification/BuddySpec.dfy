// Blocks of page frames as values: how they tile the managed frames, how two
// buddies merge and a block splits, and why the free frames determine the free
// blocks.
module BuddySpec {
  import opened Arith

  const MAX_ORDER: nat := 4

  datatype Status = Free | Live | Pending
  datatype Block = Block(order: nat, status: Status)

  // owner[p] is the first frame of the block that frame p belongs to.
  datatype Tiles = Tiles(blocks: map<nat, Block>, owner: seq<nat>)

  function Size(k: nat): (s: nat)
    requires k <= MAX_ORDER
  {
    if k == 0 then 1 else if k == 1 then 2 else if k == 2 then 4 else if k == 3 then 8 else 16
  }

  predicate Aligned(h: nat, k: nat)
    requires k <= MAX_ORDER
  {
    h % Size(k) == 0
  }

  // page_idx ^ (1 << k)
  function BuddyOf(h: nat, k: nat): nat
    requires k < MAX_ORDER
  {
    if (h / Size(k)) % 2 == 0 then h + Size(k) else h - Size(k)
  }

  // page_idx & buddy_idx: bit k cleared
  function Combined(h: nat, k: nat): nat
    requires k < MAX_ORDER
  {
    if (h / Size(k)) % 2 == 0 then h else h - Size(k)
  }

  ghost predicate Within(p: nat, h: nat, k: nat)
    requires k <= MAX_ORDER
  {
    h <= p < h + Size(k)
  }

  ghost predicate Tiling(t: Tiles) {
    && |t.owner| % Size(MAX_ORDER) == 0
    && (forall h :: h in t.blocks ==> BlockFits(t, h))
    && (forall p :: 0 <= p < |t.owner| ==> Owned(t, p))
  }

  ghost predicate BlockFits(t: Tiles, h: nat) {
    h in t.blocks && (var k := t.blocks[h].order;
      && k <= MAX_ORDER && Aligned(h, k) && h + Size(k) <= |t.owner|
      && forall p: nat :: Within(p, h, k) ==> t.owner[p] == h)
  }

  ghost predicate Owned(t: Tiles, p: nat) {
    && p < |t.owner| && t.owner[p] in t.blocks
    && t.blocks[t.owner[p]].order <= MAX_ORDER && Within(p, t.owner[p], t.blocks[t.owner[p]].order)
  }

  // ----- arithmetic of aligned blocks -----

  lemma Doubles(k: nat)
    requires k < MAX_ORDER
    ensures Size(k + 1) == 2 * Size(k) && Size(k) > 0
  {
    if k == 0 {} else if k == 1 {} else if k == 2 {} else {}
  }

  lemma Divides(k: nat, j: nat)
    requires k <= j <= MAX_ORDER
    ensures Size(k) > 0 && Size(j) % Size(k) == 0
  {
    if k == 0 {} else if k == 1 {} else if k == 2 {} else {}
  }

  lemma BitClear(h: nat, k: nat)
    requires k < MAX_ORDER && Aligned(h, k)
    ensures (h / Size(k)) % 2 == 0 <==> Aligned(h, k + 1)
    ensures !Aligned(h, k + 1) ==> h >= Size(k) && Aligned(h - Size(k), k + 1)
  {
    Doubles(k);
    EvenMultiple(h, Size(k));
  }

  lemma HalfFacts(h: nat, k: nat)
    requires k < MAX_ORDER && Aligned(h, k + 1)
    ensures Size(k + 1) == 2 * Size(k) && Size(k) > 0
    ensures Aligned(h, k) && Aligned(h + Size(k), k) && BuddyOf(h, k) == h + Size(k) && BuddyOf(h + Size(k), k) == h
    ensures Combined(h, k) == h && Combined(h + Size(k), k) == h
  {
    var n := Size(k);
    Doubles(k);
    Divides(k, k + 1);
    MultipleOfMultiple(h, 2 * n, n);
    SumMultiple(h, n, n);
    EvenMultiple(h, n);
    EvenMultiple(h + n, n);
    NotBoth(h, n);
  }

  // Of a multiple of 2n and the multiple of n after it, the second is none of 2n.
  lemma NotBoth(h: nat, n: nat)
    requires n > 0 && h % (2 * n) == 0
    ensures (h + n) % (2 * n) != 0
  {
    if (h + n) % (2 * n) == 0 {
      SameMultiple(2 * n, h, h + n);
    }
  }

  lemma {:induction false} BuddyFacts(h: nat, k: nat)
    requires k < MAX_ORDER && Aligned(h, k)
    ensures Aligned(BuddyOf(h, k), k) && BuddyOf(BuddyOf(h, k), k) == h
    ensures Combined(h, k) == Combined(BuddyOf(h, k), k)
    ensures Combined(h, k) == if h < BuddyOf(h, k) then h else BuddyOf(h, k)
    ensures Aligned(Combined(h, k), k + 1) && Size(k + 1) == 2 * Size(k)
    ensures {h, BuddyOf(h, k)} == {Combined(h, k), Combined(h, k) + Size(k)}
  {
    BitClear(h, k);
    if Aligned(h, k + 1) {
      HalfFacts(h, k);
    } else {
      HalfFacts(h - Size(k), k);
    }
  }

  // The buddy of a block below the top order lies within the same top block.
  lemma BuddyInside(h: nat, k: nat, n: nat)
    requires k < MAX_ORDER && Aligned(h, k) && h < n && n % Size(MAX_ORDER) == 0
    ensures BuddyOf(h, k) + Size(k) <= n && Combined(h, k) + Size(k + 1) <= n
  {
    BuddyFacts(h, k);
    RoundUp(Combined(h, k), k + 1, n);
  }

  lemma RoundUp(c: nat, k: nat, n: nat)
    requires k <= MAX_ORDER && Aligned(c, k) && c < n && n % Size(MAX_ORDER) == 0
    ensures c + Size(k) <= n
  {
    Divides(k, MAX_ORDER);
    MultipleOfMultiple(n, Size(MAX_ORDER), Size(k));
    NextMultiple(Size(k), c, n);
  }

  // Aligned blocks are nested or apart.
  lemma Nested(h: nat, k: nat, b: nat, j: nat)
    requires k <= j <= MAX_ORDER && Aligned(h, k) && Aligned(b, j)
    ensures (b <= h && h + Size(k) <= b + Size(j)) || h + Size(k) <= b || b + Size(j) <= h
  {
    var n, m := Size(k), Size(j);
    Divides(k, j);
    MultipleOfMultiple(b, m, n);
    SumMultiple(b, m, n);
    if h < b {
      NextMultiple(n, h, b);
    } else if h < b + m {
      NextMultiple(n, h, b + m);
    }
  }

  // ----- merging and splitting -----

  ghost function Claim(owner: seq<nat>, h: nat, size: nat): (r: seq<nat>)
    ensures |r| == |owner| && forall p :: 0 <= p < |r| ==> r[p] == if h <= p < h + size then h else owner[p]
  {
    seq(|owner|, p requires 0 <= p < |owner| => if h <= p < h + size then h else owner[p])
  }

  ghost function WithStatus(t: Tiles, h: nat, st: Status): Tiles
    requires h in t.blocks
  {
    t.(blocks := t.blocks[h := t.blocks[h].(status := st)])
  }

  // Block h of order k and its buddy become one pending block.
  ghost function Merged(t: Tiles, h: nat, k: nat): Tiles
    requires k < MAX_ORDER
  {
    var c := Combined(h, k);
    Tiles((t.blocks - {h, BuddyOf(h, k)})[c := Block(k + 1, Pending)], Claim(t.owner, c, Size(k + 1)))
  }

  // Block h of order k + 1 keeps its lower half; the upper half is free.
  ghost function Halved(t: Tiles, h: nat, k: nat): Tiles
    requires k < MAX_ORDER && h in t.blocks
  {
    var u := h + Size(k);
    Tiles(t.blocks[h := Block(k, t.blocks[h].status)][u := Block(k, Free)], Claim(t.owner, u, Size(k)))
  }

  lemma StatusTiling(t: Tiles, h: nat, st: Status)
    requires Tiling(t) && h in t.blocks
    ensures Tiling(WithStatus(t, h, st))
  {
    var t' := WithStatus(t, h, st);
    forall b | b in t'.blocks ensures BlockFits(t', b) { assert BlockFits(t, b); }
    forall p | 0 <= p < |t'.owner| ensures Owned(t', p) { assert Owned(t, p); }
  }

  lemma MergeTiling(t: Tiles, h: nat, k: nat)
    requires Tiling(t) && k < MAX_ORDER && h in t.blocks && t.blocks[h].order == k
    requires BuddyOf(h, k) in t.blocks && t.blocks[BuddyOf(h, k)].order == k
    ensures Tiling(Merged(t, h, k))
  {
    var c, b, t' := Combined(h, k), BuddyOf(h, k), Merged(t, h, k);
    assert BlockFits(t, h) && BlockFits(t, b);
    BuddyFacts(h, k);
    forall x | x in t'.blocks ensures BlockFits(t', x) {
      if x != c {
        assert BlockFits(t, x);
        forall p: nat | Within(p, x, t.blocks[x].order) ensures t'.owner[p] == x {
          assert t.owner[p] == x;
        }
      }
    }
    forall p | 0 <= p < |t'.owner| ensures Owned(t', p) { assert Owned(t, p); }
  }

  lemma SplitTiling(t: Tiles, h: nat, k: nat)
    requires Tiling(t) && k < MAX_ORDER && h in t.blocks && t.blocks[h].order == k + 1
    ensures Tiling(Halved(t, h, k)) && h + Size(k) !in t.blocks
  {
    var u, t' := h + Size(k), Halved(t, h, k);
    assert BlockFits(t, h);
    HalfFacts(h, k);
    assert Within(u, h, k + 1) && t.owner[u] == h;
    assert u in t.blocks ==> BlockFits(t, u) && Within(u, u, t.blocks[u].order);
    forall x | x in t'.blocks ensures BlockFits(t', x) {
      if x != h && x != u {
        assert BlockFits(t, x);
        forall p: nat | Within(p, x, t.blocks[x].order) ensures t'.owner[p] == x {
          assert t.owner[p] == x;
        }
      } else {
        forall p: nat | Within(p, x, k) ensures t'.owner[p] == x { assert Within(p, h, k + 1); }
      }
    }
    forall p | 0 <= p < |t'.owner| ensures Owned(t', p) { assert Owned(t, p); }
  }

  // ----- frames and blocks by status -----

  ghost function Frames(t: Tiles, st: Status): set<nat> {
    set p | 0 <= p < |t.owner| && t.owner[p] in t.blocks && t.blocks[t.owner[p]].status == st
  }

  ghost function Blocks(t: Tiles, st: Status): map<nat, nat> {
    map h | h in t.blocks && t.blocks[h].status == st :: t.blocks[h].order
  }

  ghost function Run(h: nat, k: nat): set<nat>
    requires k <= MAX_ORDER
  {
    set p: nat | p < h + Size(k) && Within(p, h, k)
  }

  // No two free buddies of the same order below the top stand beside each other.
  ghost predicate Maximal(t: Tiles) {
    forall h :: h in t.blocks && t.blocks[h].status == Free && t.blocks[h].order < MAX_ORDER ==> Alone(t, h)
  }

  ghost predicate Alone(t: Tiles, h: nat)
    requires h in t.blocks && t.blocks[h].order < MAX_ORDER
  {
    var b := BuddyOf(h, t.blocks[h].order);
    b !in t.blocks || t.blocks[b].status != Free || t.blocks[b].order != t.blocks[h].order
  }

  // A state between two calls.
  ghost predicate Sound(t: Tiles) {
    && Tiling(t) && Maximal(t)
    && forall h :: h in t.blocks ==> t.blocks[h].status != Pending
  }

  // A free aligned run lies in one free block.
  lemma {:induction false} RunInBlock(t: Tiles, h: nat, k: nat)
    requires Tiling(t) && Maximal(t) && k <= MAX_ORDER && Aligned(h, k) && h + Size(k) <= |t.owner|
    requires Run(h, k) <= Frames(t, Free)
    ensures InFreeBlock(t, h, k)
    decreases k
  {
    var b := t.owner[h];
    assert h in Run(h, k) && Owned(t, h) && BlockFits(t, b);
    if k > 0 {
      var m := h + Size(k - 1);
      HalfFacts(h, k - 1);
      assert Run(h, k - 1) <= Run(h, k) && Run(m, k - 1) <= Run(h, k);
      RunInBlock(t, h, k - 1);
      RunInBlock(t, m, k - 1);
      var b2 := t.owner[m];
      assert BlockFits(t, b2) && BuddyOf(h, k - 1) == m;
      assert h in t.blocks && t.blocks[h] == Block(k - 1, Free) ==> Alone(t, h);
      if t.blocks[b2].order >= k {
        Nested(h, k, b2, t.blocks[b2].order);
        assert Within(h, b2, t.blocks[b2].order);
      }
      if t.blocks[b].order >= k {
        Nested(h, k, b, t.blocks[b].order);
      } else {
        assert false;
      }
    }
  }

  // The run of order k at h lies within one free block.
  ghost predicate InFreeBlock(t: Tiles, h: nat, k: nat)
    requires k <= MAX_ORDER && h < |t.owner|
  {
    var b := t.owner[h];
    && b in t.blocks && t.blocks[b].status == Free && k <= t.blocks[b].order <= MAX_ORDER
    && b <= h && h + Size(k) <= b + Size(t.blocks[b].order)
  }

  lemma InFreeBlockOwner(t: Tiles, h: nat, k: nat, p: nat)
    requires Tiling(t) && k <= MAX_ORDER && h < |t.owner| && InFreeBlock(t, h, k) && Within(p, h, k)
    ensures p < |t.owner| && t.owner[p] == t.owner[h]
  {
    assert BlockFits(t, t.owner[h]) && Within(p, t.owner[h], t.blocks[t.owner[h]].order);
  }

  // The free frames alone say which blocks are free: a run is a free block if it
  // is free and the run twice its size around it is not.
  ghost predicate IsFreeBlock(frames: set<nat>, n: nat, h: nat, k: nat) {
    && k <= MAX_ORDER && Aligned(h, k) && h + Size(k) <= n && Run(h, k) <= frames
    && (k < MAX_ORDER ==> !(Run(Combined(h, k), k + 1) <= frames))
  }

  lemma {:induction false} FreeBlockIsCanonical(t: Tiles, h: nat, k: nat)
    requires Tiling(t) && Maximal(t)
    ensures (h in t.blocks && t.blocks[h] == Block(k, Free)) <==> IsFreeBlock(Frames(t, Free), |t.owner|, h, k)
  {
    if h in t.blocks && t.blocks[h] == Block(k, Free) {
      assert BlockFits(t, h) && Within(h, h, k) && t.owner[h] == h;
      forall p | p in Run(h, k) ensures p in Frames(t, Free) { assert Within(p, h, k); }
      CombinedRun(t, h, k);
    }
    if IsFreeBlock(Frames(t, Free), |t.owner|, h, k) {
      RunInBlock(t, h, k);
      LargerBlock(t, h, k);
      assert BlockFits(t, t.owner[h]);
    }
  }

  // A free run around a free block would lie in that block.
  lemma CombinedRun(t: Tiles, h: nat, k: nat)
    requires Tiling(t) && Maximal(t) && h in t.blocks && t.blocks[h] == Block(k, Free)
    requires k <= MAX_ORDER && h + Size(k) <= |t.owner| && Aligned(h, k) && t.owner[h] == h
    ensures k < MAX_ORDER ==> !(Run(Combined(h, k), k + 1) <= Frames(t, Free))
  {
    if k < MAX_ORDER && Run(Combined(h, k), k + 1) <= Frames(t, Free) {
      var c := Combined(h, k);
      BuddyFacts(h, k);
      BuddyInside(h, k, |t.owner|);
      RunInBlock(t, c, k + 1);
      InFreeBlockOwner(t, c, k + 1, h);
    }
  }

  // A free run within a larger free block has the run around it free.
  lemma LargerBlock(t: Tiles, h: nat, k: nat)
    requires Tiling(t) && k <= MAX_ORDER && Aligned(h, k) && h < |t.owner| && InFreeBlock(t, h, k)
    ensures t.owner[h] in t.blocks && t.blocks[t.owner[h]].status == Free && t.blocks[t.owner[h]].order >= k
    ensures t.blocks[t.owner[h]].order > k ==> k < MAX_ORDER && Run(Combined(h, k), k + 1) <= Frames(t, Free)
  {
    var b := t.owner[h];
    var j := t.blocks[b].order;
    assert BlockFits(t, b);
    if j > k {
      BuddyFacts(h, k);
      Nested(Combined(h, k), k + 1, b, j);
      forall p | p in Run(Combined(h, k), k + 1) ensures p in Frames(t, Free) { assert Within(p, b, j); }
    }
  }

  // Two states with the same free frames have the same free blocks.
  lemma SameFramesSameBlocks(t: Tiles, t': Tiles)
    requires Tiling(t) && Maximal(t) && Tiling(t') && Maximal(t')
    requires |t.owner| == |t'.owner| && Frames(t, Free) == Frames(t', Free)
    ensures Blocks(t, Free) == Blocks(t', Free)
  {
    forall h: nat
      ensures h in Blocks(t, Free) <==> h in Blocks(t', Free)
      ensures h in Blocks(t, Free) ==> Blocks(t, Free)[h] == Blocks(t', Free)[h] {
      if h in Blocks(t, Free) {
        FreeBlockIsCanonical(t, h, t.blocks[h].order);
        FreeBlockIsCanonical(t', h, t.blocks[h].order);
      }
      if h in Blocks(t', Free) {
        FreeBlockIsCanonical(t, h, t'.blocks[h].order);
        FreeBlockIsCanonical(t', h, t'.blocks[h].order);
      }
    }
  }
}
