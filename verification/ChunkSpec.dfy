// Pages cut into chunks of one size, and a free list threaded through the free ones.
module ChunkSpec {
  import opened Arith
  import opened Lists

  const PAGE: nat := 4096

  datatype Block = Block(va: nat, pa: nat)

  predicate ChunkSize(size: nat) {
    size in {16, 32, 64, 128, 256, 512, 1024, 2048}
  }

  // The chunks of the page at base from offset i on.
  function Chunks(base: nat, size: nat, i: nat): seq<nat>
    requires size > 0
    decreases if i < PAGE then PAGE - i else 0
  {
    if i >= PAGE then [] else [base + i] + Chunks(base, size, i + size)
  }

  function AllChunks(blocks: seq<Block>, size: nat): seq<nat>
    requires size > 0
  {
    if blocks == [] then [] else Chunks(blocks[0].pa, size, 0) + AllChunks(blocks[1..], size)
  }

  // mem holds, in the first word of each free chunk, the next one.
  ghost predicate Linked(mem: map<nat, nat>, head: nat, free: seq<nat>)
    decreases |free|
  {
    if free == [] then head == 0
    else head == free[0] && head != 0 && head in mem && Linked(mem, mem[head], free[1..])
  }

  lemma {:induction false} LinkedFrame(mem: map<nat, nat>, head: nat, free: seq<nat>, mem': map<nat, nat>)
    requires Linked(mem, head, free) && forall a :: a in free && a in mem ==> a in mem' && mem'[a] == mem[a]
    ensures Linked(mem', head, free)
    decreases |free|
  {
    if free != [] {
      assert forall a :: a in free[1..] ==> a in free;
      LinkedFrame(mem, mem[head], free[1..], mem');
    }
  }

  lemma StepFits(size: nat, i: nat)
    requires ChunkSize(size) && i % size == 0 && i < PAGE
    ensures i + size <= PAGE && (i + size) % size == 0
  {
    NextMultiple(size, i, PAGE);
  }

  // A chunk lies wholly within its page, behind its offset.
  lemma {:induction false} ChunksInside(base: nat, size: nat, i: nat, a: nat)
    requires ChunkSize(size) && i % size == 0 && a in Chunks(base, size, i)
    ensures base + i <= a && a + size <= base + PAGE
    decreases if i < PAGE then PAGE - i else 0
  {
    StepFits(size, i);
    if a != base + i {
      ChunksInside(base, size, i + size, a);
    }
  }

  lemma {:induction false} ChunksOnce(base: nat, size: nat, i: nat)
    requires ChunkSize(size) && i % size == 0
    ensures NoDups(Chunks(base, size, i))
    decreases if i < PAGE then PAGE - i else 0
  {
    if i < PAGE {
      StepFits(size, i);
      ChunksOnce(base, size, i + size);
      if base + i in Chunks(base, size, i + size) {
        ChunksInside(base, size, i + size, base + i);
      }
    }
  }

  // They are the addresses from base + i on in steps of the size, up to the page's end.
  lemma {:induction false} ChunksAre(base: nat, size: nat, i: nat)
    requires ChunkSize(size) && i % size == 0 && i <= PAGE
    ensures |Chunks(base, size, i)| * size == 4096 - i
    ensures forall k :: 0 <= k < |Chunks(base, size, i)| ==> Chunks(base, size, i)[k] == base + i + k * size
    decreases PAGE - i
  {
    if i < PAGE {
      StepFits(size, i);
      var rest, s := Chunks(base, size, i + size), Chunks(base, size, i);
      ChunksAre(base, size, i + size);
      OneMore(|rest|, |s|, size);
      forall k | 0 <= k < |s| ensures s[k] == base + i + k * size {
        if k > 0 {
          OneMore(k - 1, k, size);
          assert s[k] == rest[k - 1];
        }
      }
    }
  }

  lemma OneMore(n: nat, next: nat, size: nat)
    requires next == n + 1
    ensures next * size == n * size + size
  {}

  // Two chunks of one page do not overlap.
  lemma {:induction false} ChunksApart(base: nat, size: nat, i: nat, a: nat, b: nat)
    requires ChunkSize(size) && i % size == 0 && a in Chunks(base, size, i) && b in Chunks(base, size, i) && a < b
    ensures a + size <= b
    decreases if i < PAGE then PAGE - i else 0
  {
    StepFits(size, i);
    if a == base + i {
      ChunksInside(base, size, i + size, b);
    } else if b == base + i {
      ChunksInside(base, size, i + size, a);
    } else {
      ChunksApart(base, size, i + size, a, b);
    }
  }

  lemma TwoChunks(base: nat)
    ensures Chunks(base, 2048, 0) == [base, base + 2048]
  {
    assert Chunks(base, 2048, 4096) == [];
    assert Chunks(base, 2048, 2048) == [base + 2048] + [];
  }

  lemma FreeEnds(mem: map<nat, nat>, head: nat, free: seq<nat>)
    requires Linked(mem, head, free)
    ensures head == 0 <==> free == []
  {}

  // The chunks of each page, page by page.
  function Pages(blocks: seq<Block>, size: nat): (ss: seq<seq<nat>>)
    requires size > 0
    ensures |ss| == |blocks| && forall k :: 0 <= k < |blocks| ==> ss[k] == Chunks(blocks[k].pa, size, 0)
  {
    seq(|blocks|, k requires 0 <= k < |blocks| => Chunks(blocks[k].pa, size, 0))
  }

  function Concat(ss: seq<seq<nat>>): seq<nat> {
    if ss == [] then [] else ss[0] + Concat(ss[1..])
  }

  lemma {:induction false} FindIn(ss: seq<seq<nat>>, a: nat) returns (k: nat)
    requires a in Concat(ss)
    ensures k < |ss| && a in ss[k]
  {
    if a in ss[0] {
      k := 0;
    } else {
      var l := FindIn(ss[1..], a);
      k := l + 1;
    }
  }

  lemma {:induction false} AllIsConcat(blocks: seq<Block>, size: nat)
    requires size > 0
    ensures AllChunks(blocks, size) == Concat(Pages(blocks, size))
  {
    if blocks != [] {
      AllIsConcat(blocks[1..], size);
      assert Pages(blocks, size)[1..] == Pages(blocks[1..], size);
    }
  }

  lemma BlockOf(blocks: seq<Block>, size: nat, a: nat) returns (k: nat)
    requires size > 0 && a in AllChunks(blocks, size)
    ensures k < |blocks| && a in Chunks(blocks[k].pa, size, 0)
  {
    AllIsConcat(blocks, size);
    k := FindIn(Pages(blocks, size), a);
  }

  lemma PageOf(blocks: seq<Block>, size: nat, a: nat) returns (k: nat)
    requires ChunkSize(size) && a in AllChunks(blocks, size)
    ensures k < |blocks| && blocks[k].pa <= a && a + size <= blocks[k].pa + PAGE
  {
    k := BlockOf(blocks, size, a);
    ChunksInside(blocks[k].pa, size, 0, a);
  }

  lemma {:induction false} AllChunksAppend(blocks: seq<Block>, b: Block, size: nat)
    requires size > 0
    ensures AllChunks(blocks + [b], size) == AllChunks(blocks, size) + Chunks(b.pa, size, 0)
  {
    if blocks == [] {
      AllChunksHead(b, [], size);
      assert blocks + [b] == [b] + [];
    } else {
      var rest := blocks[1..];
      AllChunksAppend(rest, b, size);
      AllChunksHead(blocks[0], rest, size);
      AllChunksHead(blocks[0], rest + [b], size);
      assert blocks == [blocks[0]] + rest && blocks + [b] == [blocks[0]] + (rest + [b]);
      Associate(Chunks(blocks[0].pa, size, 0), AllChunks(rest, size), Chunks(b.pa, size, 0));
    }
  }

  lemma Associate(a: seq<nat>, b: seq<nat>, c: seq<nat>)
    ensures (a + b) + c == a + (b + c)
  {}

  lemma AllChunksHead(b: Block, rest: seq<Block>, size: nat)
    requires size > 0
    ensures AllChunks([b] + rest, size) == Chunks(b.pa, size, 0) + AllChunks(rest, size)
  {
    assert ([b] + rest)[1..] == rest;
  }

  ghost predicate Aligned(b: Block) {
    b.pa % PAGE == 0 && b.va % PAGE == 0 && b.pa > 0
  }

  ghost predicate BlocksApart(blocks: seq<Block>) {
    && (forall i :: 0 <= i < |blocks| ==> Aligned(blocks[i]))
    && forall i, j :: 0 <= i < j < |blocks| ==> blocks[i].pa != blocks[j].pa && blocks[i].va != blocks[j].va
  }

  // Every chunk of the pages is either free, once in the list, or live.
  ghost predicate Partition(blocks: seq<Block>, size: nat, free: seq<nat>, live: set<nat>) {
    && ChunkSize(size) && BlocksApart(blocks) && NoDups(free)
    && (forall a :: a in AllChunks(blocks, size) <==> a in free || a in live)
    && (forall a :: a in free ==> a !in live)
  }

  // No page belongs to two chains.
  ghost predicate ChainsApart(a: seq<Block>, b: seq<Block>) {
    forall i, j :: 0 <= i < |a| && 0 <= j < |b| ==> a[i].pa != b[j].pa && a[i].va != b[j].va
  }

  ghost predicate Disjoint(a: nat, size: nat, b: nat, size': nat) {
    a + size <= b || b + size' <= a
  }

  lemma PagesApart(p: nat, q: nat)
    requires p % PAGE == 0 && q % PAGE == 0 && p != q
    ensures Disjoint(p, PAGE, q, PAGE)
  {
    NextMultiple(PAGE, if p < q then p else q, if p < q then q else p);
  }

  // Chunks that are live together never overlap, whichever pages of a class they
  // come from ...
  lemma {:induction false} LiveApart(blocks: seq<Block>, size: nat, free: seq<nat>, live: set<nat>, a: nat, b: nat)
    requires Partition(blocks, size, free, live) && a in live && b in live && a != b
    ensures Disjoint(a, size, b, size)
  {
    var i := BlockOf(blocks, size, a);
    var j := BlockOf(blocks, size, b);
    ChunksInside(blocks[i].pa, size, 0, a);
    ChunksInside(blocks[j].pa, size, 0, b);
    if i == j {
      ChunksApart(blocks[i].pa, size, 0, if a < b then a else b, if a < b then b else a);
    } else {
      assert Aligned(blocks[i]) && Aligned(blocks[j]) && blocks[i].pa != blocks[j].pa;
      PagesApart(blocks[i].pa, blocks[j].pa);
    }
  }

  // ... or of different classes.
  lemma ClassesApart(p: seq<Block>, size: nat, q: seq<Block>, size': nat, a: nat, b: nat)
    requires ChunkSize(size) && ChunkSize(size') && BlocksApart(p) && BlocksApart(q) && ChainsApart(p, q)
    requires a in AllChunks(p, size) && b in AllChunks(q, size')
    ensures Disjoint(a, size, b, size')
  {
    var i := BlockOf(p, size, a);
    var j := BlockOf(q, size', b);
    ChunksInside(p[i].pa, size, 0, a);
    ChunksInside(q[j].pa, size', 0, b);
    assert Aligned(p[i]) && Aligned(q[j]) && p[i].pa != q[j].pa;
    PagesApart(p[i].pa, q[j].pa);
  }

  // Taking the first free chunk and giving a live one back keep the partition.
  lemma TakeKeeps(blocks: seq<Block>, size: nat, free: seq<nat>, live: set<nat>)
    requires Partition(blocks, size, free, live) && free != []
    ensures Partition(blocks, size, free[1..], live + {free[0]})
  {
    assert free == [free[0]] + free[1..];
  }

  lemma GiveKeeps(blocks: seq<Block>, size: nat, free: seq<nat>, live: set<nat>, a: nat)
    requires Partition(blocks, size, free, live) && a in live
    ensures Partition(blocks, size, [a] + free, live - {a})
  {
    assert ([a] + free)[1..] == free;
  }

  // A new page of chunks for an exhausted class.
  lemma {:induction false} GrowKeeps(blocks: seq<Block>, size: nat, live: set<nat>, b: Block)
    requires Partition(blocks, size, [], live) && Aligned(b)
    requires forall i :: 0 <= i < |blocks| ==> blocks[i].pa != b.pa && blocks[i].va != b.va
    ensures Partition(blocks + [b], size, Chunks(b.pa, size, 0), live)
  {
    AllChunksAppend(blocks, b, size);
    ChunksOnce(b.pa, size, 0);
    forall a | a in Chunks(b.pa, size, 0) ensures a !in live { NotInNewPage(blocks, size, b, a); }
    MorePages(blocks, b);
  }

  lemma MorePages(blocks: seq<Block>, b: Block)
    requires BlocksApart(blocks) && Aligned(b)
    requires forall i :: 0 <= i < |blocks| ==> blocks[i].pa != b.pa && blocks[i].va != b.va
    ensures BlocksApart(blocks + [b])
  {}

  lemma NotInNewPage(blocks: seq<Block>, size: nat, b: Block, a: nat)
    requires ChunkSize(size) && BlocksApart(blocks) && Aligned(b) && a in Chunks(b.pa, size, 0)
    requires forall i :: 0 <= i < |blocks| ==> blocks[i].pa != b.pa
    ensures a !in AllChunks(blocks, size)
  {
    if a in AllChunks(blocks, size) {
      var i := PageOf(blocks, size, a);
      ChunksInside(b.pa, size, 0, a);
      SamePage(blocks[i].pa, b.pa, a);
    }
  }

  lemma SamePage(p: nat, q: nat, a: nat)
    requires p % PAGE == 0 && q % PAGE == 0 && p <= a < p + PAGE && q <= a < q + PAGE
    ensures p == q
  {
    if p != q {
      PagesApart(p, q);
    }
  }

  // ----- threading the free list through a page -----

  predicate OnGrid(o: nat, size: nat)
    requires size > 0
  {
    o % size == 0
  }

  // Below offset i each chunk points to the one behind it.
  ghost predicate Threaded(mem: map<nat, nat>, base: nat, size: nat, i: nat)
    requires size > 0
  {
    forall o: nat :: o < i && OnGrid(o, size) ==>
      base + o in mem && mem[base + o] == if o + size < PAGE then base + o + size else 0
  }

  lemma ThreadOn(mem: map<nat, nat>, base: nat, size: nat, i: nat, next: nat)
    requires ChunkSize(size) && OnGrid(i, size) && Threaded(mem, base, size, i)
    requires next == if i + size < PAGE then base + i + size else 0
    ensures Threaded(mem[base + i := next], base, size, i + size)
  {
    forall o: nat | o < i + size && OnGrid(o, size)
      ensures o < i || o == i {
      if o >= i {
        SameMultiple(size, i, o);
      }
    }
  }

  lemma {:induction false} ThreadedLinked(mem: map<nat, nat>, base: nat, size: nat, i: nat)
    requires ChunkSize(size) && OnGrid(i, size) && base > 0 && Threaded(mem, base, size, PAGE) && i <= PAGE
    ensures Linked(mem, if i < PAGE then base + i else 0, Chunks(base, size, i))
    decreases PAGE - i
  {
    if i < PAGE {
      StepFits(size, i);
      ThreadedLinked(mem, base, size, i + size);
      assert Chunks(base, size, i)[1..] == Chunks(base, size, i + size);
    }
  }
}
