// The buddy page allocator: free lists of aligned power-of-two blocks of page
// frames, merged when freed and split when allocated. Frames are numbered from
// the first managed one.
module Buddy {
  import opened Options
  import opened BuddySpec
  import opened Lists

  datatype Flag = Reserved | Alloced | Slab | FreePage

  // ----- what the page flags and the free lists say about the blocks -----

  // Every managed page carries the free flag except the heads of live blocks,
  // even inside a live block; a free head carries its order.
  ghost predicate FlagFits(t: Tiles, p: nat, flag: Flag, level: int) {
    && (flag == FreePage <==> !(p in t.blocks && t.blocks[p].status == Live))
    && (p in t.blocks && t.blocks[p].status == Free ==> level == t.blocks[p].order)
  }

  ghost predicate Flagged(t: Tiles, flag: seq<Flag>, level: seq<int>) {
    && |flag| == |level| == |t.owner|
    && forall p :: 0 <= p < |flag| ==> FlagFits(t, p, flag[p], level[p])
  }

  // The head of a live block that was handed out carries its order, from which it
  // is freed again. Midway through an allocation the block being cut down does not.
  ghost predicate Leveled(t: Tiles, flag: seq<Flag>, level: seq<int>, but: set<nat>) {
    && |flag| == |level|
    && forall p :: p in t.blocks && p < |flag| && p !in but ==> LevelFits(t, p, flag[p], level[p])
  }

  ghost predicate LevelFits(t: Tiles, p: nat, flag: Flag, level: int) {
    p in t.blocks && t.blocks[p].status == Live && flag == Alloced ==> level == t.blocks[p].order
  }

  ghost predicate ListOf(t: Tiles, k: nat, s: seq<nat>) {
    && NoDups(s)
    && forall h :: h in s <==> h in t.blocks && t.blocks[h] == Block(k, Free)
  }

  ghost predicate Listed(t: Tiles, lists: seq<seq<nat>>, counts: seq<nat>) {
    && |lists| == |counts| == MAX_ORDER + 1
    && forall k :: 0 <= k <= MAX_ORDER ==> ListOf(t, k, lists[k]) && counts[k] == |lists[k]|
  }

  // ----- pure steps of the two loops -----

  lemma {:induction false} BuddyIsHead(t: Tiles, c: nat, k: nat)
    requires Tiling(t) && k < MAX_ORDER && c in t.blocks && t.blocks[c].order == k
    ensures BuddyOf(c, k) in t.blocks && t.blocks[BuddyOf(c, k)].order <= k && BuddyOf(c, k) < |t.owner|
    ensures BuddyOf(c, k) != c
  {
    var b := BuddyOf(c, k);
    assert BlockFits(t, c) && Within(c, c, k);
    BuddyFacts(c, k);
    BuddyInside(c, k, |t.owner|);
    assert Owned(t, b);
    var o := t.owner[b];
    assert BlockFits(t, o);
    var j := t.blocks[o].order;
    if j > k {
      Nested(Combined(c, k), k + 1, o, j);
      assert Within(c, o, j);
      assert false;
    } else {
      Nested(o, j, b, k);
    }
  }

  ghost predicate OnlyPending(t: Tiles, c: nat, k: nat) {
    && c in t.blocks && t.blocks[c] == Block(k, Pending)
    && forall h :: h in t.blocks && h != c ==> t.blocks[h].status != Pending
  }

  lemma StartFree(t: Tiles, p: nat)
    requires Sound(t) && p in t.blocks && t.blocks[p].status == Live
    ensures var t' := WithStatus(t, p, Pending);
      && Tiling(t') && Maximal(t') && OnlyPending(t', p, t.blocks[p].order)
      && Frames(t', Free) == Frames(t, Free) && Blocks(t', Live) == Blocks(t, Live) - {p}
  {
    var t' := WithStatus(t, p, Pending);
    StatusTiling(t, p, Pending);
    forall h | h in t'.blocks && t'.blocks[h].status == Free && t'.blocks[h].order < MAX_ORDER ensures Alone(t', h) {
      assert Alone(t, h);
    }
  }

  // The frames of one block are a run, and all carry its status.
  lemma BlockFrames(t: Tiles, h: nat)
    requires Tiling(t) && h in t.blocks
    ensures t.blocks[h].order <= MAX_ORDER
    ensures forall p :: p in Run(h, t.blocks[h].order) <==> 0 <= p < |t.owner| && t.owner[p] == h
    ensures Run(h, t.blocks[h].order) <= Frames(t, t.blocks[h].status)
  {
    assert BlockFits(t, h);
    var k := t.blocks[h].order;
    forall p
      ensures p in Run(h, k) <==> 0 <= p < |t.owner| && t.owner[p] == h {
      assert 0 <= p < |t.owner| ==> Owned(t, p);
      assert p in Run(h, k) ==> Within(p, h, k);
    }
  }

  lemma {:induction false} MergeFrames(t: Tiles, c: nat, k: nat)
    requires Tiling(t) && k < MAX_ORDER && OnlyPending(t, c, k)
    requires BuddyOf(c, k) in t.blocks && t.blocks[BuddyOf(c, k)] == Block(k, Free)
    ensures var t' := Merged(t, c, k);
      && Frames(t', Free) == Frames(t, Free) - Run(BuddyOf(c, k), k) && Run(BuddyOf(c, k), k) <= Frames(t, Free)
      && Frames(t', Live) == Frames(t, Live)
      && Run(Combined(c, k), k + 1) == Run(c, k) + Run(BuddyOf(c, k), k)
  {
    var b, a, t' := BuddyOf(c, k), Combined(c, k), Merged(t, c, k);
    BuddyFacts(c, k);
    BlockFrames(t, b);
    BlockFrames(t, c);
    assert a == c || a == b;
    forall p: nat
      ensures p in Run(a, k + 1) <==> p in Run(c, k) || p in Run(b, k) {
      assert Within(p, a, k + 1) <==> Within(p, c, k) || Within(p, b, k);
    }
    forall p: nat
      ensures p in Frames(t', Free) <==> p in Frames(t, Free) && p !in Run(b, k)
      ensures p in Frames(t', Live) <==> p in Frames(t, Live) {
      if p < |t.owner| {
        assert Owned(t, p);
        assert p in Run(a, k + 1) <==> Within(p, a, k + 1);
      }
    }
  }

  lemma MergeStep(t: Tiles, c: nat, k: nat)
    requires Tiling(t) && Maximal(t) && k < MAX_ORDER && OnlyPending(t, c, k)
    requires BuddyOf(c, k) in t.blocks && t.blocks[BuddyOf(c, k)] == Block(k, Free)
    ensures var t' := Merged(t, c, k);
      && Tiling(t') && Maximal(t') && OnlyPending(t', Combined(c, k), k + 1) && Blocks(t', Live) == Blocks(t, Live)
  {
    var t' := Merged(t, c, k);
    MergeTiling(t, c, k);
    BuddyFacts(c, k);
    forall h | h in t'.blocks && t'.blocks[h].status == Free && t'.blocks[h].order < MAX_ORDER ensures Alone(t', h) {
      assert Alone(t, h);
    }
  }

  lemma FinishFree(t: Tiles, c: nat, k: nat)
    requires Tiling(t) && Maximal(t) && OnlyPending(t, c, k)
    requires k < MAX_ORDER ==> BuddyOf(c, k) in t.blocks && t.blocks[BuddyOf(c, k)] != Block(k, Free)
    ensures var t' := WithStatus(t, c, Free);
      Sound(t') && Frames(t', Free) == Frames(t, Free) + Run(c, k) && Blocks(t', Live) == Blocks(t, Live)
  {
    var t' := WithStatus(t, c, Free);
    assert BlockFits(t, c);
    StatusTiling(t, c, Free);
    forall h | h in t'.blocks && t'.blocks[h].status == Free && t'.blocks[h].order < MAX_ORDER ensures Alone(t', h) {
      assert BlockFits(t, h);
      BuddyFacts(h, t.blocks[h].order);
      assert h != c ==> Alone(t, h);
    }
    forall p ensures p in Frames(t', Free) <==> p in Frames(t, Free) + Run(c, k) {
      if 0 <= p < |t.owner| {
        assert Owned(t, p);
        assert p in Run(c, k) <==> Within(p, c, k);
      }
    }
  }

  lemma TakeBlock(t: Tiles, h: nat)
    requires Sound(t) && h in t.blocks && t.blocks[h].status == Free
    ensures var t' := WithStatus(t, h, Live);
      && Sound(t') && Frames(t', Free) == Frames(t, Free) - Run(h, t.blocks[h].order)
      && Blocks(t', Live) == Blocks(t, Live)[h := t.blocks[h].order]
  {
    var t' := WithStatus(t, h, Live);
    StatusTiling(t, h, Live);
    BlockFrames(t, h);
    forall b | b in t'.blocks && t'.blocks[b].status == Free && t'.blocks[b].order < MAX_ORDER ensures Alone(t', b) {
      assert Alone(t, b);
    }
  }

  lemma SplitFrames(t: Tiles, h: nat, k: nat, t': Tiles, u: nat)
    requires Tiling(t) && k < MAX_ORDER && h in t.blocks && t.blocks[h] == Block(k + 1, Live)
    requires u == h + Size(k) && t' == Halved(t, h, k) && Tiling(t')
    ensures Frames(t', Free) == Frames(t, Free) + Run(u, k)
  {
    BlockFrames(t, h);
    BlockFrames(t', u);
    forall p: nat
      ensures p in Frames(t', Free) <==> p in Frames(t, Free) || p in Run(u, k) {
      if p < |t.owner| {
        assert Owned(t, p) && Owned(t', p);
      }
    }
  }

  lemma SplitRun(h: nat, k: nat, u: nat)
    requires k < MAX_ORDER && u == h + Size(k)
    ensures Run(h, k + 1) == Run(h, k) + Run(u, k)
  {
    Doubles(k);
    forall p: nat
      ensures p in Run(h, k + 1) <==> p in Run(h, k) || p in Run(u, k) {
      assert Within(p, h, k + 1) <==> Within(p, h, k) || Within(p, u, k);
    }
  }

  lemma SplitAlone(t: Tiles, h: nat, k: nat, t': Tiles, u: nat)
    requires Tiling(t) && Maximal(t) && k < MAX_ORDER && h in t.blocks && t.blocks[h] == Block(k + 1, Live)
    requires u == h + Size(k) && t' == Halved(t, h, k) && u !in t.blocks && BuddyOf(h, k) == u && BuddyOf(u, k) == h
    ensures Maximal(t')
  {
    forall b | b in t'.blocks && t'.blocks[b].status == Free && t'.blocks[b].order < MAX_ORDER ensures Alone(t', b) {
      if b != u {
        assert BlockFits(t, b) && Alone(t, b);
        BuddyFacts(b, t.blocks[b].order);
      }
    }
  }

  lemma SplitStep(t: Tiles, h: nat, k: nat)
    requires Sound(t) && k < MAX_ORDER && h in t.blocks && t.blocks[h] == Block(k + 1, Live)
    ensures var t' := Halved(t, h, k);
      && Sound(t') && Frames(t', Free) == Frames(t, Free) + Run(h + Size(k), k)
      && Blocks(t', Live) == Blocks(t, Live)[h := k]
      && Run(h, k + 1) == Run(h, k) + Run(h + Size(k), k) && h + Size(k) < |t.owner| && h + Size(k) !in t.blocks
  {
    var u, t' := h + Size(k), Halved(t, h, k);
    assert BlockFits(t, h);
    SplitTiling(t, h, k);
    HalfFacts(h, k);
    SplitAlone(t, h, k, t', u);
    SplitFrames(t, h, k, t', u);
    SplitRun(h, k, u);
  }

  // ----- what the two operations promise about the blocks -----

  ghost predicate FreeRunAt(t: Tiles, h: nat, k: nat) {
    k <= MAX_ORDER && Aligned(h, k) && h + Size(k) <= |t.owner| && Run(h, k) <= Frames(t, Free)
  }

  ghost predicate Allocated(t: Tiles, k: nat, page: Option<nat>, t': Tiles) {
    if page.None? then
      t' == t && forall h: nat :: !FreeRunAt(t, h, k)
    else
      && FreeRunAt(t, page.value, k) && |t'.owner| == |t.owner|
      && Frames(t', Free) == Frames(t, Free) - Run(page.value, k)
      && Blocks(t', Live) == Blocks(t, Live)[page.value := k]
  }

  ghost predicate Freed(t: Tiles, p: nat, k: nat, t': Tiles) {
    && k <= MAX_ORDER && |t'.owner| == |t.owner|
    && Frames(t', Free) == Frames(t, Free) + Run(p, k)
    && Blocks(t', Live) == Blocks(t, Live) - {p}
  }

  // Midway: of the free blocks of t, a block of order k is taken from h on.
  ghost predicate Carved(t: Tiles, h: nat, k: nat, t': Tiles) {
    && FreeRunAt(t, h, k) && |t'.owner| == |t.owner|
    && h in t'.blocks && t'.blocks[h] == Block(k, Live)
    && Frames(t', Free) == Frames(t, Free) - Run(h, k)
    && Blocks(t', Live) == Blocks(t, Live)[h := k]
  }

  // Midway: page's block has been merged into the pending block of order k at c.
  ghost predicate Merging(t: Tiles, page: nat, order: nat, c: nat, k: nat, t': Tiles) {
    && order <= MAX_ORDER && k <= MAX_ORDER && |t'.owner| == |t.owner|
    && Tiling(t') && Maximal(t') && OnlyPending(t', c, k)
    && Frames(t', Free) + Run(c, k) == Frames(t, Free) + Run(page, order)
    && Blocks(t', Live) == Blocks(t, Live) - {page}
  }

  // Freeing leaves the lists alone but for a buddy gone from each order passed, and
  // the merged block in front of its list.
  ghost predicate GoneUpTo(lists: seq<seq<nat>>, order: nat, k: nat, lists': seq<seq<nat>>) {
    && |lists'| == |lists|
    && forall i :: 0 <= i < |lists| ==>
         if order <= i < k then LostOne(lists[i], lists'[i]) else lists'[i] == lists[i]
  }

  ghost predicate LostOne(s: seq<nat>, s': seq<nat>) {
    exists x: nat :: x in s && s' == Without(s, x)
  }

  lemma GoneFurther(lists: seq<seq<nat>>, order: nat, k: nat, now: seq<seq<nat>>, b: nat,
                    next: nat, after: seq<seq<nat>>)
    requires GoneUpTo(lists, order, k, now) && order <= k < |lists| && next == k + 1
    requires b in now[k] && after == now[k := Without(now[k], b)]
    ensures GoneUpTo(lists, order, next, after)
  {
    assert LostOne(lists[k], after[k]);
  }

  lemma WithinMerged(p: nat, c: nat, k: nat, c': nat, next: nat)
    requires next == k + 1 <= MAX_ORDER && Within(p, c, k) && (c' == c || c' == c - Size(k))
    ensures Within(p, c', next)
  {
    Doubles(k);
  }

  ghost predicate PutBack(lists: seq<seq<nat>>, page: nat, order: nat, c: nat, k: nat,
                          t': Tiles, lists': seq<seq<nat>>) {
    && order <= k <= MAX_ORDER && k < |lists| == |lists'| && Within(page, c, k)
    && c in t'.blocks && t'.blocks[c] == Block(k, Free)
    && lists'[k] == [c] + lists[k] && GoneUpTo(lists, order, k, lists'[k := lists[k]])
  }

  lemma PutInFront(lists: seq<seq<nat>>, page: nat, order: nat, c: nat, k: nat,
                   now: seq<seq<nat>>, t': Tiles, after: seq<seq<nat>>)
    requires order <= k <= MAX_ORDER && k < |lists| && GoneUpTo(lists, order, k, now) && Within(page, c, k)
    requires c in t'.blocks && t'.blocks[c] == Block(k, Free) && after == now[k := [c] + now[k]]
    ensures PutBack(lists, page, order, c, k, t', after)
  {
    assert after[k := lists[k]] == now;
  }

  // Allocating takes the first block of the first list with one, and puts what is
  // cut off it on the empty lists below.
  ghost predicate CutFrom(lists: seq<seq<nat>>, h: nat, j: nat, k: nat, lists': seq<seq<nat>>) {
    && k <= j <= MAX_ORDER && |lists'| == |lists| == MAX_ORDER + 1 && lists[j] == [h] + lists'[j]
    && (forall i :: 0 <= i < k ==> lists'[i] == lists[i])
    && (forall i :: j < i <= MAX_ORDER ==> lists'[i] == lists[i])
    && (forall i :: k <= i < j ==> lists'[i] == [h + Size(i)] + lists[i])
  }

  lemma CutFurther(lists: seq<seq<nat>>, h: nat, high: nat, j: nat, now: seq<seq<nat>>,
                   lower: nat, after: seq<seq<nat>>)
    requires CutFrom(lists, h, high, j, now) && j == lower + 1
    requires after == now[lower := [h + Size(lower)] + now[lower]]
    ensures CutFrom(lists, h, high, lower, after)
  {}

  lemma CarveStep(t: Tiles, h: nat, k: nat, t': Tiles)
    requires Sound(t') && k < MAX_ORDER && Carved(t, h, k + 1, t')
    ensures h + Size(k) < |t'.owner| && h + Size(k) !in t'.blocks
    ensures Sound(Halved(t', h, k)) && Carved(t, h, k, Halved(t', h, k))
  {
    SplitStep(t', h, k);
    SplitDisjoint(h, k);
    assert BlockFits(Halved(t', h, k), h);
  }

  lemma MergingStep(t: Tiles, page: nat, order: nat, c: nat, k: nat, t': Tiles)
    requires Merging(t, page, order, c, k, t') && k < MAX_ORDER
    requires BuddyOf(c, k) in t'.blocks && t'.blocks[BuddyOf(c, k)] == Block(k, Free)
    ensures {c, BuddyOf(c, k)} == {Combined(c, k), Combined(c, k) + Size(k)}
    ensures Combined(c, k) < |t.owner|
    ensures Merging(t, page, order, Combined(c, k), k + 1, Merged(t', c, k))
  {
    assert BlockFits(t', c);
    MergeStep(t', c, k);
    MergeFrames(t', c, k);
    BuddyFacts(c, k);
    BuddyInside(c, k, |t.owner|);
  }

  lemma SplitDisjoint(h: nat, k: nat)
    requires k < MAX_ORDER
    ensures Run(h, k) !! Run(h + Size(k), k)
  {
    forall p | p in Run(h, k) ensures p !in Run(h + Size(k), k) {
      assert Within(p, h, k);
    }
  }

  // With no free block of order k or more there is no free run of that size.
  lemma {:induction false} NoRun(t: Tiles, k: nat)
    requires Sound(t)
    requires forall h :: h in t.blocks && t.blocks[h].status == Free ==> t.blocks[h].order < k
    ensures forall h: nat :: !FreeRunAt(t, h, k)
  {
    forall h: nat
      ensures !FreeRunAt(t, h, k) {
      if FreeRunAt(t, h, k) {
        RunInBlock(t, h, k);
        assert false;
      }
    }
  }

  // Freeing what was just allocated restores exactly the free and live blocks.
  lemma {:induction false} AllocFreeRestores(t: Tiles, k: nat, p: nat, t1: Tiles, t2: Tiles)
    requires Sound(t) && Sound(t1) && Sound(t2)
    requires Allocated(t, k, Some(p), t1) && Freed(t1, p, k, t2)
    ensures Blocks(t2, Free) == Blocks(t, Free) && Blocks(t2, Live) == Blocks(t, Live)
  {
    assert Frames(t2, Free) == Frames(t, Free);
    SameFramesSameBlocks(t, t2);
    assert p !in Blocks(t, Live) by {
      assert Within(p, p, k) && p in Run(p, k);
      if p in t.blocks {
        BlockFrames(t, p);
      }
    }
  }

  // Every frame is in a free or in a live block, never in both.
  lemma {:induction false} FreeOrLive(t: Tiles)
    requires Sound(t)
    ensures Frames(t, Free) !! Frames(t, Live)
    ensures forall p :: p in Frames(t, Free) + Frames(t, Live) <==> 0 <= p < |t.owner|
  {
    forall p | 0 <= p < |t.owner| ensures p in Frames(t, Free) || p in Frames(t, Live) {
      assert Owned(t, p);
    }
  }

  // The history of calls does not matter: the live blocks alone determine the
  // free blocks, and with them what every later allocation can give.
  lemma {:induction false} LiveDeterminesFree(t: Tiles, t': Tiles)
    requires Sound(t) && Sound(t') && |t.owner| == |t'.owner| && Blocks(t, Live) == Blocks(t', Live)
    ensures Blocks(t, Free) == Blocks(t', Free)
  {
    FreeOrLive(t);
    FreeOrLive(t');
    forall p
      ensures p in Frames(t, Live) <==> p in Frames(t', Live) {
      if p in Frames(t, Live) {
        LiveFrame(t, t', p);
      }
      if p in Frames(t', Live) {
        LiveFrame(t', t, p);
      }
    }
    forall p
      ensures p in Frames(t, Free) <==> p in Frames(t', Free) {
      assert p in Frames(t, Free) + Frames(t, Live) <==> p in Frames(t', Free) + Frames(t', Live);
    }
    SameFramesSameBlocks(t, t');
  }

  lemma LiveFrame(t: Tiles, t': Tiles, p: nat)
    requires Tiling(t) && Tiling(t') && |t.owner| == |t'.owner| && Blocks(t, Live) == Blocks(t', Live)
    requires p in Frames(t, Live)
    ensures p in Frames(t', Live)
  {
    var h := t.owner[p];
    assert h in Blocks(t, Live) && h in Blocks(t', Live);
    BlockFrames(t, h);
    BlockFrames(t', h);
    assert p in Run(h, t.blocks[h].order);
  }

  ghost predicate OnlyTopBlocks(t: Tiles) {
    && (forall h: nat :: h in t.blocks <==> h % Size(MAX_ORDER) == 0 && h < |t.owner|)
    && (forall h :: h in t.blocks ==> t.blocks[h] == Block(MAX_ORDER, Free))
  }

  // Once every frame is free, the blocks are the top-order ones and no others.
  lemma AllFreeAllTop(t: Tiles)
    requires Sound(t) && forall p :: 0 <= p < |t.owner| ==> p in Frames(t, Free)
    ensures OnlyTopBlocks(t)
  {
    forall h | h in t.blocks
      ensures t.blocks[h] == Block(MAX_ORDER, Free) && h % Size(MAX_ORDER) == 0 && h < |t.owner| {
      assert BlockFits(t, h) && Within(h, h, t.blocks[h].order) && t.owner[h] == h && h in Frames(t, Free);
      FreeBlockIsCanonical(t, h, t.blocks[h].order);
      if t.blocks[h].order < MAX_ORDER {
        BuddyInside(h, t.blocks[h].order, |t.owner|);
        assert false;
      }
    }
    forall h: nat | h % Size(MAX_ORDER) == 0 && h < |t.owner|
      ensures h in t.blocks {
      RoundUp(h, MAX_ORDER, |t.owner|);
      FreeBlockIsCanonical(t, h, MAX_ORDER);
    }
  }

  // The state before the first page is freed: every managed page is reserved.
  ghost function AllReserved(n: nat): Tiles {
    Tiles(map p: nat | p < n && Below(p, n) :: Block(0, Live), seq(n, p requires 0 <= p < n => p))
  }

  ghost predicate Below(p: nat, n: nat) {
    p < n
  }

  // Exactly the first n frames are free; every later one is a live block of its own.
  ghost predicate FreedBelow(t: Tiles, n: nat) {
    && (forall p :: p in Frames(t, Free) <==> 0 <= p < n && p < |t.owner|)
    && (forall p :: p in Blocks(t, Live) <==> n <= p < |t.owner|)
    && (forall p :: p in Blocks(t, Live) ==> Blocks(t, Live)[p] == 0)
  }

  lemma AllReservedSound(n: nat)
    requires n % Size(MAX_ORDER) == 0
    ensures Sound(AllReserved(n)) && FreedBelow(AllReserved(n), 0)
  {
    var t := AllReserved(n);
    assert forall p: nat :: p in t.blocks <==> p < n && Below(p, n);
    forall h | h in t.blocks ensures BlockFits(t, h) {
      assert forall p: nat :: Within(p, h, 0) ==> p == h;
    }
    forall p | 0 <= p < n ensures Owned(t, p) && p in Blocks(t, Live) {
      assert Below(p, n) && t.owner[p] == p && Within(p, p, 0);
    }
  }

  lemma FreedNext(t: Tiles, i: nat, t': Tiles)
    requires FreedBelow(t, i) && i < |t.owner| && Freed(t, i, 0, t')
    ensures FreedBelow(t', i + 1)
  {
    assert forall p :: p in Run(i, 0) <==> p == i by {
      assert Within(i, i, 0);
    }
  }

  // ----- flags and lists follow the steps -----

  ghost predicate Agrees(t: Tiles, flag: seq<Flag>, level: seq<int>, lists: seq<seq<nat>>, counts: seq<nat>) {
    Flagged(t, flag, level) && Listed(t, lists, counts)
  }

  lemma StartAgrees(t: Tiles, p: nat, flag: seq<Flag>, level: seq<int>, lists: seq<seq<nat>>, counts: seq<nat>)
    requires Agrees(t, flag, level, lists, counts) && p < |flag| && p in t.blocks && t.blocks[p].status == Live
    ensures Agrees(WithStatus(t, p, Pending), flag[p := FreePage], level, lists, counts)
  {
    var t' := WithStatus(t, p, Pending);
    forall k | 0 <= k <= MAX_ORDER ensures ListOf(t', k, lists[k]) { assert ListOf(t, k, lists[k]); }
    var flag' := flag[p := FreePage];
    forall q | 0 <= q < |flag| ensures FlagFits(t', q, flag'[q], level[q]) {
      assert FlagFits(t, q, flag[q], level[q]);
    }
  }

  lemma MergeAgrees(t: Tiles, c: nat, k: nat, flag: seq<Flag>, level: seq<int>, lists: seq<seq<nat>>, counts: seq<nat>)
    requires Agrees(t, flag, level, lists, counts) && k < MAX_ORDER && OnlyPending(t, c, k)
    requires BuddyOf(c, k) in t.blocks && t.blocks[BuddyOf(c, k)] == Block(k, Free) && BuddyOf(c, k) < |flag|
    requires {c, BuddyOf(c, k)} == {Combined(c, k), Combined(c, k) + Size(k)}
    ensures BuddyOf(c, k) in lists[k] && counts[k] > 0
    ensures var b := BuddyOf(c, k);
      Agrees(Merged(t, c, k), flag, level[b := -1], lists[k := Without(lists[k], b)], counts[k := counts[k] - 1])
  {
    var b, t' := BuddyOf(c, k), Merged(t, c, k);
    assert ListOf(t, k, lists[k]);
    WithoutFacts(lists[k], b);
    var lists' := lists[k := Without(lists[k], b)];
    assert Combined(c, k) == c || Combined(c, k) == b;
    forall j | 0 <= j <= MAX_ORDER ensures ListOf(t', j, lists'[j]) { assert ListOf(t, j, lists[j]); }
    var level' := level[b := -1];
    forall q | 0 <= q < |flag| ensures FlagFits(t', q, flag[q], level'[q]) {
      assert FlagFits(t, q, flag[q], level[q]);
    }
  }

  lemma FinishAgrees(t: Tiles, c: nat, k: nat, flag: seq<Flag>, level: seq<int>, lists: seq<seq<nat>>, counts: seq<nat>)
    requires Agrees(t, flag, level, lists, counts) && k <= MAX_ORDER && OnlyPending(t, c, k) && c < |flag|
    ensures Agrees(WithStatus(t, c, Free), flag[c := FreePage], level[c := k],
                   lists[k := [c] + lists[k]], counts[k := counts[k] + 1])
  {
    var t' := WithStatus(t, c, Free);
    assert ListOf(t, k, lists[k]);
    var s := [c] + lists[k];
    assert s[1..] == lists[k];
    var lists' := lists[k := s];
    forall j | 0 <= j <= MAX_ORDER ensures ListOf(t', j, lists'[j]) { assert ListOf(t, j, lists[j]); }
    var flag', level' := flag[c := FreePage], level[c := k];
    forall q | 0 <= q < |flag| ensures FlagFits(t', q, flag'[q], level'[q]) {
      assert FlagFits(t, q, flag[q], level[q]);
    }
  }

  lemma TakeAgrees(t: Tiles, j: nat, flag: seq<Flag>, level: seq<int>, lists: seq<seq<nat>>, counts: seq<nat>, l: int)
    requires Agrees(t, flag, level, lists, counts) && j <= MAX_ORDER && lists[j] != [] && lists[j][0] < |flag|
    ensures counts[j] > 0 && lists[j][0] in t.blocks && t.blocks[lists[j][0]] == Block(j, Free)
    ensures var h := lists[j][0];
      Agrees(WithStatus(t, h, Live), flag[h := Alloced], level[h := l],
             lists[j := lists[j][1..]], counts[j := counts[j] - 1])
  {
    var h, s := lists[j][0], lists[j];
    assert ListOf(t, j, s) && h in s;
    var t' := WithStatus(t, h, Live);
    assert s == [h] + s[1..];
    var lists' := lists[j := s[1..]];
    forall i | 0 <= i <= MAX_ORDER ensures ListOf(t', i, lists'[i]) { assert ListOf(t, i, lists[i]); }
    var flag', level' := flag[h := Alloced], level[h := l];
    forall q | 0 <= q < |flag| ensures FlagFits(t', q, flag'[q], level'[q]) {
      assert FlagFits(t, q, flag[q], level[q]);
    }
  }

  lemma SplitAgrees(t: Tiles, h: nat, k: nat, flag: seq<Flag>, level: seq<int>, lists: seq<seq<nat>>, counts: seq<nat>)
    requires Agrees(t, flag, level, lists, counts) && k < MAX_ORDER && h in t.blocks
    requires t.blocks[h] == Block(k + 1, Live)
    requires h + Size(k) < |flag| && h + Size(k) !in t.blocks
    ensures var u := h + Size(k);
      Agrees(Halved(t, h, k), flag, level[u := k], lists[k := [u] + lists[k]], counts[k := counts[k] + 1])
  {
    var u, t' := h + Size(k), Halved(t, h, k);
    assert ListOf(t, k, lists[k]);
    var s := [u] + lists[k];
    assert s[1..] == lists[k];
    var lists' := lists[k := s];
    forall j | 0 <= j <= MAX_ORDER ensures ListOf(t', j, lists'[j]) { assert ListOf(t, j, lists[j]); }
    var level' := level[u := k];
    forall q | 0 <= q < |flag| ensures FlagFits(t', q, flag[q], level'[q]) {
      assert FlagFits(t, q, flag[q], level[q]);
    }
  }

  lemma SplitLeveled(t: Tiles, h: nat, k: nat, flag: seq<Flag>, level: seq<int>)
    requires Leveled(t, flag, level, {h}) && k < MAX_ORDER && h in t.blocks
    requires h + Size(k) < |flag| && h + Size(k) !in t.blocks
    ensures Leveled(Halved(t, h, k), flag, level[h + Size(k) := k], {h})
  {
    var t', level' := Halved(t, h, k), level[h + Size(k) := k];
    forall p | p in t'.blocks && p < |flag| && p != h ensures LevelFits(t', p, flag[p], level'[p]) {
      assert p in t.blocks ==> LevelFits(t, p, flag[p], level[p]);
    }
  }

  class BuddySys {
    const flag: array<Flag>
    const level: array<int>
    const free: array<seq<nat>>
    const nrFree: array<nat>
    const start: nat
    ghost var tiles: Tiles

    ghost predicate Backed()
      reads this, flag, level, free, nrFree
    {
      (level as object) != (nrFree as object) && Agrees(tiles, flag[..], level[..], free[..], nrFree[..])
    }

    ghost predicate Valid()
      reads this, flag, level, free, nrFree
    {
      Backed() && Sound(tiles) && Leveled(tiles, flag[..], level[..], {})
    }

    // Midway through an allocation of order k the page at h is marked already.
    ghost predicate Cutting(h: nat, k: nat)
      reads this, flag, level, free, nrFree
    {
      && Backed() && Sound(tiles) && Leveled(tiles, flag[..], level[..], {h})
      && h < flag.Length && flag[h] == Alloced && level[h] == k
    }

    // init_buddy: everything from the first aligned frame after the kernel to the
    // last aligned one is reserved, then freed page by page.
    constructor (kernelEnd: nat, maxPfn: nat)
      ensures Valid() && fresh(flag) && fresh(level) && fresh(free) && fresh(nrFree)
      ensures start % Size(MAX_ORDER) == 0 && kernelEnd < start <= kernelEnd + Size(MAX_ORDER)
      ensures maxPfn >= start ==> start + flag.Length <= maxPfn < start + flag.Length + Size(MAX_ORDER)
      ensures maxPfn < start ==> flag.Length == 0
      ensures OnlyTopBlocks(tiles)
    {
      var first := (kernelEnd + 1 + 15) / 16 * 16;
      var last := maxPfn / 16 * 16;
      var n: nat := if last > first then last - first else 0;
      start := first;
      flag := new Flag[n](_ => Reserved);
      level := new int[n](_ => -1);
      free := new seq<nat>[MAX_ORDER + 1](_ => []);
      nrFree := new nat[MAX_ORDER + 1](_ => 0);
      tiles := AllReserved(n);
      new;
      AllReservedSound(n);
      FreeAll();
    }

    // The loop of init_buddy.
    method FreeAll()
      requires Valid() && FreedBelow(tiles, 0)
      modifies this`tiles, flag, level, free, nrFree
      ensures Valid() && OnlyTopBlocks(tiles)
    {
      var i: nat := 0;
      while i < flag.Length
        invariant i <= flag.Length && Valid() && FreedBelow(tiles, i)
      {
        assert i in Blocks(tiles, Live) && FlagFits(tiles, i, flag[i], level[i]);
        ghost var t := tiles;
        Free(i, 0);
        FreedNext(t, i, tiles);
        i := i + 1;
      }
      AllFreeAllTop(tiles);
    }

    // The free buddy leaves its list.
    method Unlink(c: nat, k: nat, next: nat, ghost t: Tiles, ghost page: nat, ghost order: nat) returns (c': nat)
      requires Backed() && Merging(t, page, order, c, k, tiles) && k < MAX_ORDER && |t.owner| == flag.Length
      requires BuddyOf(c, k) in tiles.blocks && tiles.blocks[BuddyOf(c, k)] == Block(k, BuddySpec.Free)
      requires BuddyOf(c, k) < flag.Length && next == k + 1 && Leveled(tiles, flag[..], level[..], {})
      modifies this`tiles, level, free, nrFree
      ensures c' == Combined(c, k) < flag.Length && Backed() && Merging(t, page, order, c', next, tiles)
      ensures Leveled(tiles, flag[..], level[..], {}) && (c' == c || c' == c - Size(k))
      ensures BuddyOf(c, k) in old(free[k]) && free[..] == old(free[..])[k := Without(old(free[k]), BuddyOf(c, k))]
    {
      var b := BuddyOf(c, k);
      MergingStep(t, page, order, c, k, tiles);
      MergeAgrees(tiles, c, k, flag[..], level[..], free[..], nrFree[..]);
      free[k] := Without(free[k], b);
      nrFree[k] := nrFree[k] - 1;
      level[b] := -1;
      tiles := Merged(tiles, c, k);
      c' := Combined(c, k);
    }

    // In the loop of __free_pages: page's block has grown to the one of order k at c.
    ghost predicate Climbing(page: nat, order: nat, c: nat, k: nat, t: Tiles, lists: seq<seq<nat>>)
      reads this, flag, level, free, nrFree
    {
      && c < flag.Length == |t.owner| && Backed() && Merging(t, page, order, c, k, tiles)
      && Leveled(tiles, flag[..], level[..], {}) && order <= k && Within(page, c, k)
      && GoneUpTo(lists, order, k, free[..])
    }

    // One round of the merge.
    method Absorb(c: nat, k: nat, next: nat, ghost t: Tiles, ghost page: nat, ghost order: nat,
                  ghost lists: seq<seq<nat>>) returns (c': nat)
      requires Climbing(page, order, c, k, t, lists) && k < MAX_ORDER && next == k + 1
      requires BuddyOf(c, k) in tiles.blocks && tiles.blocks[BuddyOf(c, k)] == Block(k, BuddySpec.Free)
      requires BuddyOf(c, k) < flag.Length
      modifies this`tiles, level, free, nrFree
      ensures Climbing(page, order, c', next, t, lists) && c' == Combined(c, k)
    {
      ghost var now := free[..];
      c' := Unlink(c, k, next, t, page, order);
      GoneFurther(lists, order, k, now, BuddyOf(c, k), next, free[..]);
      WithinMerged(page, c, k, c', next);
    }

    // A page joins the list of its order.
    method Link(u: nat, j: nat)
      requires j < free.Length == nrFree.Length && u < level.Length
      requires (level as object) != (nrFree as object)
      modifies level, free, nrFree
      ensures free[..] == old(free[..])[j := [u] + old(free[j])]
      ensures nrFree[..] == old(nrFree[..])[j := old(nrFree[j]) + 1] && level[..] == old(level[..])[u := j]
    {
      free[j] := [u] + free[j];
      nrFree[j] := nrFree[j] + 1;
      level[u] := j;
    }

    // The merged block joins its list.
    method Put(c: nat, k: nat)
      requires c < flag.Length && Backed() && Tiling(tiles) && Maximal(tiles) && k <= MAX_ORDER
      requires OnlyPending(tiles, c, k) && Leveled(tiles, flag[..], level[..], {})
      requires k < MAX_ORDER ==>
        BuddyOf(c, k) in tiles.blocks && tiles.blocks[BuddyOf(c, k)] != Block(k, BuddySpec.Free)
      modifies this`tiles, flag, level, free, nrFree
      ensures Valid() && tiles == WithStatus(old(tiles), c, BuddySpec.Free)
      ensures free[..] == old(free[..])[k := [c] + old(free[k])]
    {
      FinishFree(tiles, c, k);
      FinishAgrees(tiles, c, k, flag[..], level[..], free[..], nrFree[..]);
      Link(c, k);
      flag[c] := FreePage;
      tiles := WithStatus(tiles, c, BuddySpec.Free);
    }

    // The loop of __free_pages: as long as the buddy is free and of the same order.
    method MergeUp(page: nat, order: nat, ghost t: Tiles, ghost lists: seq<seq<nat>>) returns (c: nat, k: nat)
      requires Climbing(page, order, page, order, t, lists)
      modifies this`tiles, level, free, nrFree
      ensures Climbing(page, order, c, k, t, lists)
      ensures k < MAX_ORDER ==>
        BuddyOf(c, k) in tiles.blocks && tiles.blocks[BuddyOf(c, k)] != Block(k, BuddySpec.Free)
    {
      c, k := page, order;
      while k < MAX_ORDER
        invariant Climbing(page, order, c, k, t, lists)
        decreases MAX_ORDER - k
      {
        BuddyIsHead(tiles, c, k);
        var b := BuddyOf(c, k);
        assert FlagFits(tiles, b, flag[b], level[b]);
        if flag[b] != FreePage || level[b] != k {
          break;
        }
        c := Absorb(c, k, k + 1, t, page, order, lists);
        k := k + 1;
      }
    }

    // The page is marked free before the loop.
    method Begin(page: nat, order: nat)
      requires Valid() && page < flag.Length && flag[page] != FreePage && tiles.blocks[page].order == order
      modifies this`tiles, flag
      ensures Climbing(page, order, page, order, old(tiles), free[..])
    {
      assert FlagFits(tiles, page, flag[page], level[page]);
      assert BlockFits(tiles, page);
      StartFree(tiles, page);
      StartAgrees(tiles, page, flag[..], level[..], free[..], nrFree[..]);
      flag[page] := FreePage;
      tiles := WithStatus(tiles, page, Pending);
    }

    // __free_pages: a page already carrying the free flag is left alone.
    method Free(page: nat, order: nat)
      requires Valid() && page < flag.Length
      requires flag[page] != FreePage ==> tiles.blocks[page].order == order
      modifies this`tiles, flag, level, free, nrFree
      ensures Valid()
      ensures old(flag[page]) == FreePage ==>
                && tiles == old(tiles) && free[..] == old(free[..])
                && flag[..] == old(flag[..]) && level[..] == old(level[..])
      ensures old(flag[page]) != FreePage ==>
                && Freed(old(tiles), page, order, tiles)
                && exists c: nat, k: nat :: PutBack(old(free[..]), page, order, c, k, tiles, free[..])
    {
      if flag[page] == FreePage {
        return;
      }
      ghost var t, lists := tiles, free[..];
      Begin(page, order);
      var c, k := MergeUp(page, order, t, lists);
      ghost var now := free[..];
      FinishFree(tiles, c, k);
      Put(c, k);
      PutInFront(lists, page, order, c, k, now, tiles, free[..]);
    }

    // kfree of a page that was handed out: it goes back at the order it carries.
    method Kfree(page: nat)
      requires Valid() && page < flag.Length && flag[page] == Alloced
      modifies this`tiles, flag, level, free, nrFree
      ensures Valid() && page in old(tiles).blocks && old(tiles).blocks[page].status == Live
      ensures Freed(old(tiles), page, old(tiles).blocks[page].order, tiles)
    {
      assert FlagFits(tiles, page, flag[page], level[page]);
      assert LevelFits(tiles, page, flag[page], level[page]);
      Free(page, level[page]);
    }

    // The search of __alloc_pages: the first non-empty list of order k or more.
    method FindList(k: nat) returns (j: nat)
      requires Valid()
      ensures j <= MAX_ORDER ==> k <= j && free[j] != []
      ensures j > MAX_ORDER ==> forall h: nat :: !FreeRunAt(tiles, h, k)
      ensures forall i :: k <= i < j && i <= MAX_ORDER ==> free[i] == []
    {
      j := k;
      while j <= MAX_ORDER && free[j] == []
        invariant k <= j
        invariant forall i :: k <= i < j && i <= MAX_ORDER ==> free[i] == []
        decreases MAX_ORDER + 1 - j
      {
        j := j + 1;
      }
      if j > MAX_ORDER {
        forall h | h in tiles.blocks && tiles.blocks[h].status == BuddySpec.Free
          ensures tiles.blocks[h].order < k {
          var i := tiles.blocks[h].order;
          assert BlockFits(tiles, h) && ListOf(tiles, i, free[..][i]);
        }
        NoRun(tiles, k);
      }
    }

    // Unlinks the first page of a list and marks it allocated.
    method TakeFirst(j: nat, k: nat) returns (h: nat)
      requires Valid() && j <= MAX_ORDER && free[j] != []
      modifies this`tiles, flag, level, free, nrFree
      ensures Cutting(h, k) && Carved(old(tiles), h, j, tiles)
      ensures CutFrom(old(free[..]), h, j, j, free[..])
    {
      h := free[j][0];
      assert ListOf(tiles, j, free[..][j]) && h in free[..][j];
      assert BlockFits(tiles, h);
      TakeBlock(tiles, h);
      BlockFrames(tiles, h);
      TakeAgrees(tiles, j, flag[..], level[..], free[..], nrFree[..], k);
      free[j] := free[j][1..];
      level[h] := k;
      flag[h] := Alloced;
      nrFree[j] := nrFree[j] - 1;
      tiles := WithStatus(tiles, h, Live);
    }

    // One round of the split: the upper half of the block goes to its list. Its
    // flag is not written.
    method SplitOff(h: nat, j: nat, ghost k: nat, ghost t: Tiles)
      requires Cutting(h, k) && j < MAX_ORDER && Carved(t, h, j + 1, tiles)
      modifies this`tiles, level, free, nrFree
      ensures Cutting(h, k) && Carved(t, h, j, tiles)
      ensures free[..] == old(free[..])[j := [h + Size(j)] + old(free[j])]
    {
      ghost var levels, lists, counts := level[..], free[..], nrFree[..];
      CarveStep(t, h, j, tiles);
      SplitAgrees(tiles, h, j, flag[..], levels, lists, counts);
      SplitLeveled(tiles, h, j, flag[..], levels);
      Link(h + Size(j), j);
      tiles := Halved(tiles, h, j);
    }

    // The halving loop of __alloc_pages.
    method CarveDown(h: nat, high: nat, k: nat, ghost t: Tiles, ghost lists: seq<seq<nat>>)
      requires Cutting(h, k) && k <= high <= MAX_ORDER && Carved(t, h, high, tiles)
      requires CutFrom(lists, h, high, high, free[..])
      modifies this`tiles, level, free, nrFree
      ensures Valid() && Carved(t, h, k, tiles) && flag[h] == Alloced && level[h] == k
      ensures CutFrom(lists, h, high, k, free[..])
    {
      var j := high;
      while j > k
        invariant k <= j <= high && Cutting(h, k) && Carved(t, h, j, tiles)
        invariant CutFrom(lists, h, high, j, free[..])
        decreases j
      {
        ghost var now := free[..];
        j := j - 1;
        SplitOff(h, j, k, t);
        CutFurther(lists, h, high, j + 1, now, j, free[..]);
      }
    }

    // __alloc_pages: the first block large enough, cut down half by half.
    method Alloc(k: nat) returns (page: Option<nat>)
      requires Valid()
      modifies this`tiles, flag, level, free, nrFree
      ensures Valid()
      ensures Allocated(old(tiles), k, page, tiles)
      ensures page.Some? ==> page.value < flag.Length && flag[page.value] == Alloced && level[page.value] == k
      ensures page.Some? ==> exists j: nat ::
                CutFrom(old(free[..]), page.value, j, k, free[..]) && forall i :: k <= i < j ==> old(free[..])[i] == []
      ensures page.None? ==> flag[..] == old(flag[..]) && level[..] == old(level[..]) && free[..] == old(free[..])
    {
      var j := FindList(k);
      if j > MAX_ORDER {
        return None;
      }
      ghost var t, lists := tiles, free[..];
      var h := TakeFirst(j, k);
      CarveDown(h, j, k, t, lists);
      page := Some(h);
    }

    // kmalloc of pages and kfree of what it gave: the blocks are as before.
    method AllocKfree(k: nat) returns (page: Option<nat>)
      requires Valid()
      modifies this`tiles, flag, level, free, nrFree
      ensures Valid()
      ensures page.None? <==> forall h: nat :: !FreeRunAt(old(tiles), h, k)
      ensures Blocks(tiles, BuddySpec.Free) == Blocks(old(tiles), BuddySpec.Free)
      ensures Blocks(tiles, Live) == Blocks(old(tiles), Live)
    {
      ghost var t := tiles;
      page := Alloc(k);
      if page.Some? {
        ghost var t1 := tiles;
        Kfree(page.value);
        AllocFreeRestores(t, k, page.value, t1, tiles);
      }
    }
  }
}
