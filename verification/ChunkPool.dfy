// The heap of a process: eight classes of small chunks, each a chain of pages
// with one free list, mapped into the process by its page table.
module ChunkPool {
  import opened Arith
  import opened Words
  import opened ChunkSpec
  import PageTable

  type Space = PageTable.AddressSpace

  const FIRST_VA: nat := 0x1_0000

  // Frames are page aligned, as kmalloc of whole pages gives them.
  ghost predicate SpaceOk(space: Space)
    reads space, space.ptd, space.tables
  {
    space.Valid() && forall n :: 0 <= n < PageTable.PAGES ==> space.Frame(n) % PAGE == 0
  }

  ghost predicate BlockMapped(space: Space, b: Block)
    requires space.Valid()
    reads space, space.ptd, space.tables
  {
    b.va / PAGE < PageTable.PAGES && b.va % PAGE == 0 && space.Frame(b.va / PAGE) == b.pa > 0
  }

  // Every page of the chain is mapped where the chain says.
  ghost predicate Mapped(space: Space, blocks: seq<Block>)
    requires space.Valid()
    reads space, space.ptd, space.tables
  {
    forall i {:trigger BlockMapped(space, blocks[i])} :: 0 <= i < |blocks| ==> BlockMapped(space, blocks[i])
  }

  // Page n, at or behind 0x10000, is free to map.
  ghost predicate IsHole(space: Space, n: nat)
    requires space.Valid()
    reads space, space.ptd, space.tables
  {
    FIRST_VA / PAGE <= n < PageTable.PAGES && space.Frame(n) == 0
  }

  // Nothing was mapped where b is.
  twostate predicate WasUnmapped(space: Space, b: Block)
    requires old(space.Valid())
  {
    b.va / PAGE < PageTable.PAGES && old(space.Frame(b.va / PAGE)) == 0
  }

  // The search of small_chunk_alloc for the end of a chain of n blocks stands at a
  // position of the chain, 0 being the head. Its guard: there is a next block.
  predicate HasNext(n: nat, p: nat) {
    p + 1 < n
  }

  const HEAD: nat := 0

  // The source goes to the block behind the head, not behind p where it stands.
  function TailStep(p: nat): nat {
    HEAD + 1
  }

  // Where the loop stands after at most j rounds.
  function TailAfter(n: nat, p: nat, j: nat): nat
    decreases j
  {
    if j == 0 || !HasNext(n, p) then p else TailAfter(n, TailStep(p), j - 1)
  }

  lemma {:induction false} TailStays(n: nat, p: nat, j: nat)
    requires n > 2 && p <= 1
    ensures HasNext(n, TailAfter(n, p, j))
    decreases j
  {
    if j > 0 {
      TailStays(n, TailStep(p), j - 1);
    }
  }

  // From the head it leaves the loop, and then stands at the last block, if and
  // only if there are at most two.
  lemma {:induction false} TailFoundIff(n: nat)
    requires n > 0
    ensures (exists j: nat :: !HasNext(n, TailAfter(n, HEAD, j))) <==> n <= 2
    ensures forall j: nat :: !HasNext(n, TailAfter(n, HEAD, j)) ==> TailAfter(n, HEAD, j) == n - 1
  {
    if n > 2 {
      forall j: nat ensures HasNext(n, TailAfter(n, HEAD, j)) { TailStays(n, HEAD, j); }
    } else {
      assert !HasNext(n, TailAfter(n, HEAD, 1));
      forall j: nat ensures !HasNext(n, TailAfter(n, HEAD, j)) ==> TailAfter(n, HEAD, j) == n - 1 {
        if j > 1 && n == 2 {
          assert TailAfter(n, HEAD, j) == TailAfter(n, 1, j - 1) == 1;
        }
      }
    }
  }

  lemma SameVirtualPage(va: nat, base: nat, offset: nat)
    requires base % PAGE == 0 && offset < PAGE && va == offset + base
    ensures va / PAGE == base / PAGE && va % PAGE == offset
  {
    assert base == PAGE * (base / PAGE);
    Remainder(va, PAGE, base / PAGE, offset);
  }

  class SizeClass {
    const size: nat
    var blocks: seq<Block>
    var head: nat
    var mem: map<nat, nat>
    ghost var free: seq<nat>
    ghost var live: set<nat>

    ghost predicate Valid()
      reads this
    {
      Partition(blocks, size, free, live) && Linked(mem, head, free)
    }

    // A class without pages yet.
    constructor (size: nat)
      requires ChunkSize(size)
      ensures Valid() && this.size == size && blocks == [] && live == {}
    {
      this.size, blocks, head, mem, free, live := size, [], 0, map[], [], {};
    }

    // init_chunk_list: each chunk of the page points to the next, the last to none.
    method InitChunkList(base: nat)
      requires ChunkSize(size) && base > 0
      modifies this`mem
      ensures Linked(mem, base, Chunks(base, size, 0))
      ensures forall a :: a in old(mem) && !(base <= a < base + PAGE) ==> a in mem && mem[a] == old(mem)[a]
    {
      var i: nat, p: nat := 0, base;
      while true
        invariant i < PAGE && OnGrid(i, size) && p == base + i && Threaded(mem, base, size, i)
        invariant forall a :: a in old(mem) && !(base <= a < base + PAGE) ==> a in mem && mem[a] == old(mem)[a]
        decreases PAGE - i
      {
        StepFits(size, i);
        ThreadOn(mem, base, size, i, if i + size < PAGE then base + i + size else 0);
        i := i + size;
        if i < PAGE {
          var q := p + size;
          mem := mem[p := q];
          p := q;
        } else {
          mem := mem[p := 0];
          break;
        }
      }
      ThreadedLinked(mem, base, size, 0);
    }

    // The search of init_memory_block: the first unmapped page from 0x10000 on.
    method FindHole(space: Space) returns (va: u32)
      requires SpaceOk(space)
      requires exists n :: IsHole(space, n)
      ensures va >= FIRST_VA && va % PAGE == 0 && va / PAGE < PageTable.PAGES && old(space.Frame(va / PAGE)) == 0
      ensures forall n :: FIRST_VA / PAGE <= n < va / PAGE ==> old(space.Frame(n)) != 0
    {
      ghost var hole: nat :| IsHole(space, hole);
      var n: nat := FIRST_VA / PAGE;
      va := n * PAGE;
      var pa := space.VaToPa(va);
      while pa != 0
        invariant FIRST_VA / PAGE <= n <= hole && va == n * PAGE && (pa == 0 <==> space.Frame(n) == 0)
        invariant forall m :: FIRST_VA / PAGE <= m < n ==> old(space.Frame(m)) != 0
        decreases hole - n
      {
        n := n + 1;
        va := va + PAGE;
        pa := space.VaToPa(va);
      }
      assert va / PAGE == n;
    }

    // init_memory_block: the first page from 0x10000 on that nothing is mapped to,
    // mapped to the given new frame and cut into chunks.
    method InitBlock(space: Space, page: u32) returns (va: u32)
      requires space.Valid() && ChunkSize(size) && SpaceOk(space) && page > 0 && page % PAGE == 0
      requires exists n :: IsHole(space, n)
      modifies this`mem, space, space.ptd, space.tables
      ensures SpaceOk(space) && fresh(space.tables - old(space.tables))
      ensures va >= FIRST_VA && va % PAGE == 0 && va / PAGE < PageTable.PAGES && old(space.Frame(va / PAGE)) == 0
      ensures forall n :: FIRST_VA / PAGE <= n < va / PAGE ==> old(space.Frame(n)) != 0
      ensures forall n :: 0 <= n < PageTable.PAGES ==>
        space.Frame(n) == if n == va / PAGE then page else old(space.Frame(n))
      ensures Linked(mem, page, Chunks(page, size, 0))
      ensures forall a :: a in old(mem) && !(page <= a < page + PAGE) ==> a in mem && mem[a] == old(mem)[a]
    {
      va := FindHole(space);
      space.SetMapping(va, page);
      InitChunkList(page);
    }

    // The tail search: terminates on chains of at most two blocks only.
    method Tail() returns (last: nat)
      requires 1 <= |blocks| <= 2
      ensures last == |blocks| - 1
    {
      last := HEAD;
      while HasNext(|blocks|, last)
        invariant last < |blocks|
        decreases 1 - last
      {
        last := TailStep(last);
      }
    }

    // The block a chunk lies in; k is one.
    method BlockAt(a: nat, ghost k: nat) returns (i: nat)
      requires k < |blocks| && blocks[k].pa <= a < blocks[k].pa + PAGE
      ensures i < |blocks| && blocks[i].pa <= a < blocks[i].pa + PAGE
    {
      i := 0;
      while i < |blocks|
        invariant i <= k
      {
        if blocks[i].pa <= a < blocks[i].pa + PAGE {
          return;
        }
        i := i + 1;
      }
    }

    // The virtual address of a chunk: the block it lies in gives the page.
    method Address(space: Space, a: nat) returns (va: nat)
      requires Valid() && space.Valid() && Mapped(space, blocks) && a in AllChunks(blocks, size)
      ensures va / PAGE < PageTable.PAGES && space.Frame(va / PAGE) > 0 && space.Frame(va / PAGE) + va % PAGE == a
    {
      ghost var k := PageOf(blocks, size, a);
      var i := BlockAt(a, k);
      va := a - blocks[i].pa + blocks[i].va;
      assert BlockMapped(space, blocks[i]);
      SameVirtualPage(va, blocks[i].va, a - blocks[i].pa);
    }

    // small_chunk_alloc: the first free chunk; with none left, a new page first. The
    // address handed out translates to a chunk that was not live.
    method Alloc(space: Space, page: u32) returns (va: nat, ghost chunk: nat)
      requires Valid() && SpaceOk(space) && Mapped(space, blocks) && blocks != []
      requires head == 0 ==> Room(space, page) && |blocks| <= 2
      modifies this, space, space.ptd, space.tables
      ensures Valid() && SpaceOk(space) && Mapped(space, blocks) && fresh(space.tables - old(space.tables))
      ensures live == old(live) + {chunk} && chunk !in old(live)
      ensures va / PAGE < PageTable.PAGES && space.Frame(va / PAGE) > 0 && space.Frame(va / PAGE) + va % PAGE == chunk
      ensures forall n :: 0 <= n < PageTable.PAGES && old(space.Frame(n)) != 0 ==> space.Frame(n) == old(space.Frame(n))
      ensures old(head) != 0 ==> chunk == old(head) && blocks == old(blocks)
      ensures old(head) == 0 ==> chunk == page && Grown(old(blocks), blocks, page)
      ensures old(head) == 0 ==> WasUnmapped(space, blocks[|blocks| - 1])
      ensures free == (if old(head) == 0 then Chunks(page, size, 0) else old(free))[1..]
      ensures forall n :: 0 <= n < PageTable.PAGES && (old(head) == 0 ==> n != blocks[|blocks| - 1].va / PAGE) ==>
        space.Frame(n) == old(space.Frame(n))
    {
      if head == 0 {
        Grow(space, page);
      }
      chunk := head;
      va := Take(space);
    }

    // What a new page needs: somewhere to map it, and a frame not in use here.
    ghost predicate Room(space: Space, page: u32)
      requires space.Valid()
      reads this, space, space.ptd, space.tables
    {
      && page > 0 && page % PAGE == 0
      && (forall i :: 0 <= i < |blocks| ==> blocks[i].pa != page)
      && exists n :: IsHole(space, n)
    }

    method Grow(space: Space, page: u32)
      requires Valid() && SpaceOk(space) && Mapped(space, blocks) && blocks != [] && head == 0 && |blocks| <= 2
      requires Room(space, page)
      modifies this`mem, this`blocks, this`free, this`head, space, space.ptd, space.tables
      ensures Valid() && SpaceOk(space) && Mapped(space, blocks) && fresh(space.tables - old(space.tables))
      ensures head == page && live == old(live) && free == Chunks(page, size, 0) && Grown(old(blocks), blocks, page)
      ensures WasUnmapped(space, blocks[|blocks| - 1])
      ensures forall n :: 0 <= n < PageTable.PAGES && n != blocks[|blocks| - 1].va / PAGE ==>
        space.Frame(n) == old(space.Frame(n))
    {
      var b := NewPage(space, page);
      Install(b);
    }

    // The new page becomes the end of the chain and its chunks the free list.
    method Install(b: Block)
      requires Partition(blocks, size, [], live) && 1 <= |blocks| <= 2
      requires Aligned(b) && Linked(mem, b.pa, Chunks(b.pa, size, 0))
      requires forall i :: 0 <= i < |blocks| ==> blocks[i].pa != b.pa && blocks[i].va != b.va
      modifies this`blocks, this`free, this`head
      ensures Valid() && blocks == old(blocks) + [b] && head == b.pa && free == Chunks(b.pa, size, 0)
    {
      GrowKeeps(blocks, size, live, b);
      var last := Tail();
      assert blocks[..last + 1] == blocks;
      blocks := blocks[..last + 1] + [b];
      free := Chunks(b.pa, size, 0);
      head := b.pa;
    }

    // A new page beside those of the chain, which stay mapped as they are.
    method NewPage(space: Space, page: u32) returns (b: Block)
      requires ChunkSize(size) && SpaceOk(space) && Mapped(space, blocks) && Room(space, page)
      modifies this`mem, space, space.ptd, space.tables
      ensures SpaceOk(space) && Mapped(space, blocks) && BlockMapped(space, b)
      ensures fresh(space.tables - old(space.tables))
      ensures WasUnmapped(space, b)
      ensures b.pa == page && Aligned(b) && forall i :: 0 <= i < |blocks| ==> blocks[i].va != b.va
      ensures Linked(mem, page, Chunks(page, size, 0))
      ensures forall n :: 0 <= n < PageTable.PAGES && n != b.va / PAGE ==> space.Frame(n) == old(space.Frame(n))
    {
      forall i | 0 <= i < |blocks| ensures old(BlockMapped(space, blocks[i])) {}
      var va := InitBlock(space, page);
      b := Block(va, page);
      forall i | 0 <= i < |blocks| ensures BlockMapped(space, blocks[i]) && blocks[i].va != va {
        assert old(BlockMapped(space, blocks[i]));
      }
    }

    // The first page of a class without pages, as memory_pool_create makes it.
    method InitFirst(space: Space, page: u32)
      requires Valid() && blocks == [] && live == {} && SpaceOk(space) && Room(space, page)
      modifies this, space, space.ptd, space.tables
      ensures Valid() && SpaceOk(space) && Mapped(space, blocks) && fresh(space.tables - old(space.tables))
      ensures |blocks| == 1 && blocks[0].pa == head == page && live == {} && free == Chunks(page, size, 0)
      ensures WasUnmapped(space, blocks[0])
      ensures forall n :: 0 <= n < PageTable.PAGES && n != blocks[0].va / PAGE ==> space.Frame(n) == old(space.Frame(n))
      ensures forall n :: 0 <= n < PageTable.PAGES && old(space.Frame(n)) != 0 ==> space.Frame(n) == old(space.Frame(n))
    {
      var b := NewPage(space, page);
      GrowKeeps([], size, {}, b);
      assert [] + [b] == [b];
      blocks, free, head := [b], Chunks(b.pa, size, 0), page;
    }

    method Take(space: Space) returns (va: nat)
      requires Valid() && SpaceOk(space) && Mapped(space, blocks) && head != 0
      modifies this`head, this`free, this`live
      ensures Valid() && live == old(live) + {old(head)} && old(head) !in old(live) && free == old(free)[1..]
      ensures va / PAGE < PageTable.PAGES && space.Frame(va / PAGE) > 0
      ensures space.Frame(va / PAGE) + va % PAGE == old(head)
    {
      assert free != [] && head == free[0] && head in free;
      va := Address(space, head);
      TakeKeeps(blocks, size, free, live);
      live := live + {head};
      head := mem[head];
      free := free[1..];
    }

    // The chunk goes to the front of the free list.
    method Give(a: nat)
      requires Valid() && a in live && a > 0
      modifies this`mem, this`head, this`free, this`live
      ensures Valid() && live == old(live) - {a} && head == a && free == [a] + old(free)
    {
      GiveKeeps(blocks, size, free, live, a);
      var mem' := mem[a := head];
      LinkedFrame(mem, head, free, mem');
      assert ([a] + free)[1..] == free;
      mem := mem';
      free := [a] + free;
      live := live - {a};
      head := a;
    }

    // The walk of memory_free over the pages of this class.
    method FindPage(va: nat) returns (found: bool)
      ensures found <==> old(InPages(va))
    {
      var i := 0;
      while i < |blocks|
        invariant 0 <= i <= |blocks|
        invariant forall j :: 0 <= j < i ==> !(blocks[j].va <= va < blocks[j].va + PAGE)
      {
        if blocks[i].va <= va < blocks[i].va + PAGE {
          return true;
        }
        i := i + 1;
      }
      found := false;
    }

    ghost predicate InPages(va: nat)
      reads this
    {
      exists i :: 0 <= i < |blocks| && blocks[i].va <= va < blocks[i].va + PAGE
    }
  }

  const CLASSES: nat := 8

  // 16 << i
  function SizeOf(i: nat): (size: nat)
    requires i < CLASSES
    ensures ChunkSize(size)
  {
    if i == 0 then 16 else if i == 1 then 32 else if i == 2 then 64 else if i == 3 then 128
    else if i == 4 then 256 else if i == 5 then 512 else if i == 6 then 1024 else 2048
  }

  // Each class has chunks of twice the size of the one before, so the first that fits
  // is the smallest that fits.
  lemma {:induction false} SizesDouble(i: nat)
    requires i + 1 < CLASSES
    ensures CLASSES == 8 && SizeOf(0) == 16 && SizeOf(i + 1) == 2 * SizeOf(i)
  {
    if i == 0 {} else if i == 1 {} else if i == 2 {} else if i == 3 {} else if i == 4 {} else {}
  }

  ghost predicate Grown(before: seq<Block>, after: seq<Block>, page: nat) {
    |after| == |before| + 1 && after[..|before|] == before && after[|before|].pa == page
  }

  // The page table as a table: the frame of each page number.
  ghost function Frames(space: Space): (r: seq<nat>)
    requires space.Valid()
    reads space, space.ptd, space.tables
    ensures |r| == PageTable.PAGES && forall n :: 0 <= n < |r| ==> r[n] == space.Frame(n)
  {
    seq(PageTable.PAGES, n requires 0 <= n < PageTable.PAGES && space.Valid()
                           reads space, space.ptd, space.tables => space.Frame(n))
  }

  // No mapping is taken back or changed.
  ghost predicate Keeps(before: seq<nat>, after: seq<nat>) {
    |before| == |after| && forall n :: 0 <= n < |before| && before[n] != 0 ==> after[n] == before[n]
  }

  // Page numbers at or behind 0x10000 that nothing is mapped to.
  ghost predicate Holes(frames: seq<nat>, holes: set<nat>) {
    forall n :: n in holes ==> FIRST_VA / PAGE <= n < |frames| && frames[n] == 0
  }

  ghost predicate PlacedAt(frames: seq<nat>, b: Block) {
    b.va / PAGE < |frames| && b.va % PAGE == 0 && frames[b.va / PAGE] == b.pa > 0
  }

  ghost predicate AllApart(bs: seq<seq<Block>>) {
    forall i, j :: 0 <= i < j < |bs| ==> ChainsApart(bs[i], bs[j])
  }

  ghost predicate Unused(bs: seq<seq<Block>>, page: nat) {
    forall k, l :: 0 <= k < |bs| && 0 <= l < |bs[k]| ==> bs[k][l].pa != page
  }

  ghost predicate AllPlaced(bs: seq<seq<Block>>, frames: seq<nat>) {
    forall k, l :: 0 <= k < |bs| && 0 <= l < |bs[k]| ==> PlacedAt(frames, bs[k][l])
  }

  ghost predicate SameOrGrown(bs: seq<seq<Block>>, frames: seq<nat>, c: nat, page: nat, chain: seq<Block>)
    requires c < |bs|
  {
    chain == bs[c] || (Unused(bs, page) && Grown(bs[c], chain, page) && Unplaced(frames, chain[|bs[c]|]))
  }

  // A chain grown by a page that is new and was mapped to nothing stays apart
  // from every other.
  lemma GrownApart(bs: seq<seq<Block>>, frames: seq<nat>, c: nat, page: nat, bs': seq<seq<Block>>)
    requires c < |bs| == |bs'| && AllApart(bs) && forall k :: 0 <= k < |bs| && k != c ==> bs'[k] == bs[k]
    requires AllPlaced(bs, frames)
    requires SameOrGrown(bs, frames, c, page, bs'[c])
    ensures AllApart(bs')
  {
    forall k | 0 <= k < |bs| && k != c
      ensures ChainsApart(bs'[k], bs'[c]) && ChainsApart(bs'[c], bs'[k]) {
      assert k < c ==> ChainsApart(bs[k], bs[c]);
      assert c < k ==> ChainsApart(bs[c], bs[k]);
      forall i, j | 0 <= i < |bs[k]| && 0 <= j < |bs'[c]|
        ensures bs[k][i].pa != bs'[c][j].pa && bs[k][i].va != bs'[c][j].va {
        assert PlacedAt(frames, bs[k][i]);
        assert j < |bs[c]| ==> bs'[c][j] == bs[c][j];
      }
    }
  }

  // One more chain, of one page that is new and was mapped to nothing.
  lemma AddedApart(bs: seq<seq<Block>>, frames: seq<nat>, c: seq<Block>, bs': seq<seq<Block>>)
    requires AllApart(bs) && |c| == 1 && Unplaced(frames, c[0])
    requires |bs'| == |bs| + 1 && bs'[|bs|] == c && forall k :: 0 <= k < |bs| ==> bs'[k] == bs[k]
    requires AllPlaced(bs, frames) && Unused(bs, c[0].pa)
    ensures AllApart(bs')
  {
    forall i, j | 0 <= i < j < |bs'| ensures ChainsApart(bs'[i], bs'[j]) {
      assert j < |bs| ==> ChainsApart(bs[i], bs[j]);
      forall l | j == |bs| && 0 <= l < |bs[i]|
        ensures bs[i][l].pa != c[0].pa && bs[i][l].va != c[0].va {
        assert PlacedAt(frames, bs[i][l]);
      }
    }
  }

  ghost predicate Unplaced(frames: seq<nat>, b: Block) {
    b.va / PAGE < |frames| && frames[b.va / PAGE] == 0
  }

  // The loop of memory_alloc over the classes.
  function FirstFit(c: nat, size: nat): (r: nat)
    requires c < CLASSES && size <= SizeOf(CLASSES - 1) && (c > 0 ==> SizeOf(c - 1) < size)
    ensures r < CLASSES && size <= SizeOf(r) && (r > 0 ==> SizeOf(r - 1) < size)
    decreases CLASSES - c
  {
    if SizeOf(c) >= size then c else FirstFit(c + 1, size)
  }

  // What kmalloc gives for eight new pages.
  ghost predicate NewFrames(pages: seq<u32>) {
    && |pages| == CLASSES
    && (forall k :: 0 <= k < CLASSES ==> pages[k] > 0 && pages[k] % PAGE == 0)
    && forall k, l :: 0 <= k < l < CLASSES ==> pages[k] != pages[l]
  }

  ghost predicate FirstPage(c: SizeClass, page: nat)
    reads c
  {
    && |c.blocks| == 1 && c.blocks[0].pa == c.head == page && c.live == {}
    && (c.size > 0 ==> c.free == Chunks(page, c.size, 0))
  }

  // Class i of a pool, with the pages of chain.
  ghost predicate Sized(c: SizeClass, i: nat, chain: seq<Block>)
    requires i < CLASSES
    reads c
  {
    c.Valid() && c.size == SizeOf(i) && c.blocks == chain != []
  }

  ghost predicate AllSized(cs: seq<SizeClass>, bs: seq<seq<Block>>)
    reads cs
  {
    |cs| == |bs| <= CLASSES && forall i {:trigger bs[i]} :: 0 <= i < |cs| ==> Sized(cs[i], i, bs[i])
  }

  // A class as memory_pool_create makes it.
  method FirstOf(space: Space, k: nat, page: u32, ghost holes: set<nat>) returns (c: SizeClass, ghost rest: set<nat>)
    requires SpaceOk(space) && k < CLASSES && page > 0 && page % PAGE == 0
    requires holes != {} && Holes(Frames(space), holes)
    modifies space, space.ptd, space.tables
    ensures SpaceOk(space) && fresh(space.tables - old(space.tables)) && fresh(c)
    ensures c.Valid() && c.size == SizeOf(k) && Mapped(space, c.blocks) && FirstPage(c, page)
    ensures Unplaced(old(Frames(space)), c.blocks[0]) && Keeps(old(Frames(space)), Frames(space))
    ensures |rest| >= |holes| - 1 && Holes(Frames(space), rest)
  {
    c := new SizeClass(SizeOf(k));
    ghost var frames, n :| frames == Frames(space) && n in holes;
    assert IsHole(space, n);
    c.InitFirst(space, page);
    rest := holes - {c.blocks[0].va / PAGE};
  }

  // One more beside others, which do not change.
  method NewClass(space: Space, k: nat, page: u32, ghost holes: set<nat>,
                  ghost cs: seq<SizeClass>, ghost bs: seq<seq<Block>>)
    returns (c: SizeClass, ghost rest: set<nat>)
    requires SpaceOk(space) && k < CLASSES && page > 0 && page % PAGE == 0
    requires holes != {} && Holes(Frames(space), holes)
    requires AllSized(cs, bs)
    modifies space, space.ptd, space.tables
    ensures SpaceOk(space) && fresh(space.tables - old(space.tables)) && fresh(c) && AllSized(cs, bs)
    ensures c.Valid() && c.size == SizeOf(k) && Mapped(space, c.blocks) && FirstPage(c, page)
    ensures Unplaced(old(Frames(space)), c.blocks[0]) && Keeps(old(Frames(space)), Frames(space))
    ensures |rest| >= |holes| - 1 && Holes(Frames(space), rest)
  {
    c, rest := FirstOf(space, k, page, holes);
    forall i | 0 <= i < |cs| ensures Sized(cs[i], i, bs[i]) { assert old(Sized(cs[i], i, bs[i])); }
  }

  // A new user process has an empty address space and then its pool.
  method NewHeap(pages: seq<u32>) returns (pool: Pool)
    requires NewFrames(pages)
    ensures fresh(pool) && fresh(pool.space) && fresh(pool.classes) && pool.Valid()
    ensures pool.Started(CLASSES, pages)
  {
    var space := new PageTable.AddressSpace();
    pool := new Pool(space, pages, PagesFrom(FIRST_VA / PAGE, CLASSES));
  }

  ghost function PagesFrom(lo: nat, k: nat): (r: set<nat>)
    ensures |r| == k && forall n :: n in r ==> lo <= n < lo + k
  {
    if k == 0 then {} else PagesFrom(lo, k - 1) + {lo + k - 1}
  }

  // A class of 2048-byte chunks, whose pages hold two each.
  ghost predicate Big(c: SizeClass, space: Space)
    reads c, space, space.ptd, space.tables
  {
    c.Valid() && c.size == 2048 && SpaceOk(space) && Mapped(space, c.blocks) && c.blocks != []
  }

  // The last free chunk of a class is handed out.
  method EndPage(c: SizeClass, space: Space, page: u32)
    requires Big(c, space) && |c.free| == 1
    modifies c, space, space.ptd, space.tables
    ensures Big(c, space) && c.head == 0 && c.blocks == old(c.blocks)
    ensures fresh(space.tables - old(space.tables)) && Frames(space) == old(Frames(space))
  {
    FreeEnds(c.mem, c.head, c.free);
    var va;
    ghost var a;
    va, a := c.Alloc(space, page);
    FreeEnds(c.mem, c.head, c.free);
  }

  // Both chunks of a new page are handed out.
  method TakePage(c: SizeClass, space: Space, page: u32, ghost holes: set<nat>) returns (ghost rest: set<nat>)
    requires Big(c, space) && c.head == 0 && |c.blocks| <= 2 && page > 0 && page % PAGE == 0
    requires forall i :: 0 <= i < |c.blocks| ==> c.blocks[i].pa != page
    requires holes != {} && Holes(Frames(space), holes)
    modifies c, space, space.ptd, space.tables
    ensures Big(c, space) && c.head == 0 && Grown(old(c.blocks), c.blocks, page)
    ensures fresh(space.tables - old(space.tables))
    ensures |rest| >= |holes| - 1 && Holes(Frames(space), rest)
  {
    ghost var n :| n in holes;
    assert IsHole(space, n);
    var va;
    ghost var a;
    TwoChunks(page);
    va, a := c.Alloc(space, page);
    rest := holes - {c.blocks[|c.blocks| - 1].va / PAGE};
    assert Holes(Frames(space), rest);
    EndPage(c, space, page);
    assert Holes(Frames(space), rest);
  }

  // The first page of the class, and its two chunks handed out.
  method FirstTwo(space: Space, page: u32, ghost holes: set<nat>) returns (c: SizeClass, ghost rest: set<nat>)
    requires SpaceOk(space) && page > 0 && page % PAGE == 0
    requires holes != {} && Holes(Frames(space), holes)
    modifies space, space.ptd, space.tables
    ensures fresh(c) && Big(c, space) && c.head == 0 && |c.blocks| == 1 && c.blocks[0].pa == page
    ensures fresh(space.tables - old(space.tables))
    ensures |rest| >= |holes| - 1 && Holes(Frames(space), rest)
  {
    c, rest := FirstOf(space, CLASSES - 1, page, holes);
    TwoChunks(page);
    FreeEnds(c.mem, c.head, c.free);
    var va;
    ghost var a;
    va, a := c.Alloc(space, page);
    EndPage(c, space, page);
  }

  // Six allocations of 2048 bytes exhaust three pages, the first given at the start.
  // The search for the tail that the seventh would begin does not end.
  method ThreePages(space: Space, pages: seq<u32>, ghost holes: set<nat>) returns (c: SizeClass)
    requires SpaceOk(space) && |pages| == 3 && |holes| >= 3 && Holes(Frames(space), holes)
    requires forall k :: 0 <= k < 3 ==> pages[k] > 0 && pages[k] % PAGE == 0
    requires forall k, l :: 0 <= k < l < 3 ==> pages[k] != pages[l]
    modifies space, space.ptd, space.tables
    ensures c.Valid() && c.size == 2048 && |c.blocks| == 3 && c.head == 0
    ensures forall a :: a in AllChunks(c.blocks, 2048) <==> a in c.live
    ensures forall j: nat :: HasNext(|c.blocks|, TailAfter(|c.blocks|, HEAD, j))
  {
    ghost var h;
    c, h := FirstTwo(space, pages[0], holes);
    h := TakePage(c, space, pages[1], h);
    h := TakePage(c, space, pages[2], h);
    FreeEnds(c.mem, c.head, c.free);
    forall j: nat ensures HasNext(3, TailAfter(3, HEAD, j)) { TailStays(3, HEAD, j); }
  }

  ghost predicate OthersSized(cs: seq<SizeClass>, k: nat, bs: seq<seq<Block>>)
    reads cs
  {
    |cs| == |bs| <= CLASSES && forall i {:trigger bs[i]} :: 0 <= i < |cs| && i != k ==> Sized(cs[i], i, bs[i])
  }

  // An allocation from class k of a pool; the other classes keep their pages.
  method ServeFrom(space: Space, cs: seq<SizeClass>, k: nat, page: u32,
                   ghost bs: seq<seq<Block>>, ghost frames: seq<nat>)
    returns (va: nat, ghost chunk: nat)
    requires SpaceOk(space) && frames == Frames(space) && k < |cs| && AllSized(cs, bs) && Mapped(space, bs[k])
    requires forall i, j :: 0 <= i < j < |cs| ==> cs[i] != cs[j]
    requires cs[k].head == 0 ==> cs[k].Room(space, page) && |bs[k]| <= 2 && Unused(bs, page)
    modifies cs[k], space, space.ptd, space.tables
    ensures SpaceOk(space) && fresh(space.tables - old(space.tables)) && Keeps(frames, Frames(space))
    ensures Sized(cs[k], k, cs[k].blocks) && Mapped(space, cs[k].blocks) && OthersSized(cs, k, bs)
    ensures SameOrGrown(bs, frames, k, page, cs[k].blocks)
    ensures cs[k].live == old(cs[k].live) + {chunk} && chunk !in old(cs[k].live)
    ensures va / PAGE < PageTable.PAGES && space.Frame(va / PAGE) > 0 && space.Frame(va / PAGE) + va % PAGE == chunk
  {
    assert Sized(cs[k], k, bs[k]);
    va, chunk := cs[k].Alloc(space, page);
    forall i | 0 <= i < |cs| && i != k ensures Sized(cs[i], i, bs[i]) { assert old(Sized(cs[i], i, bs[i])); }
  }

  class Pool {
    var space: Space
    var classes: seq<SizeClass>

    // memory_pool_create: each class gets its first page. pages is what kmalloc gives.
    constructor (space: Space, pages: seq<u32>, ghost holes: set<nat>)
      requires SpaceOk(space) && NewFrames(pages) && |holes| >= CLASSES && Holes(Frames(space), holes)
      modifies space, space.ptd, space.tables
      ensures Valid() && this.space == space && fresh(classes) && fresh(space.tables - old(space.tables))
      ensures Started(CLASSES, pages) && Keeps(old(Frames(space)), Frames(space))
    {
      this.space, this.classes := space, [];
      new;
      ghost var h := holes;
      var k: nat := 0;
      while k < CLASSES
        invariant k <= CLASSES && this.space == space && Built(k) && Started(k, pages) && fresh(classes)
        invariant fresh(space.tables - old(space.tables)) && Keeps(old(Frames(space)), Frames(space))
        invariant |h| >= CLASSES - k && Holes(Frames(space), h)
      {
        h := AddClass(k, pages, h);
        k := k + 1;
      }
    }

    // The first k classes, each with its page.
    ghost predicate Built(k: nat)
      reads this, classes, space, space.ptd, space.tables
    {
      && SpaceOk(space) && |classes| == k <= CLASSES
      && (forall i, j :: 0 <= i < j < k ==> classes[i] != classes[j])
      && (forall i {:trigger ClassOk(i)} :: 0 <= i < k ==> ClassOk(i))
      && AllApart(Chains())
    }

    // Each of them has its first page and no live chunk.
    ghost predicate Started(k: nat, pages: seq<u32>)
      reads this, classes
    {
      k <= |classes| && k <= |pages| && forall i :: 0 <= i < k ==> FirstPage(classes[i], pages[i])
    }

    lemma StartedUnused(k: nat, pages: seq<u32>)
      requires |classes| == k < CLASSES && Started(k, pages) && NewFrames(pages)
      ensures Unused(Chains(), pages[k])
    {
      forall i, l | 0 <= i < k && 0 <= l < |Chains()[i]| ensures Chains()[i][l].pa != pages[k] {
        assert FirstPage(classes[i], pages[i]);
      }
    }

    method AddClass(k: nat, pages: seq<u32>, ghost holes: set<nat>) returns (ghost rest: set<nat>)
      requires Built(k) && k < CLASSES && Started(k, pages) && NewFrames(pages)
      requires holes != {} && Holes(Frames(space), holes)
      modifies this`classes, space, space.ptd, space.tables
      ensures Built(k + 1) && Started(k + 1, pages) && fresh(classes[k]) && classes == old(classes) + [classes[k]]
      ensures fresh(space.tables - old(space.tables)) && Keeps(old(Frames(space)), Frames(space))
      ensures |rest| >= |holes| - 1 && Holes(Frames(space), rest)
    {
      ghost var bs, frames := Chains(), Frames(space);
      ChainsPlaced(frames);
      StartedUnused(k, pages);
      ClassesSized(bs);
      var c;
      c, rest := NewClass(space, k, pages[k], holes, classes, bs);
      assert Started(k, pages);
      Append(k, pages, c, bs, frames);
    }

    method Append(k: nat, pages: seq<u32>, c: SizeClass, ghost bs: seq<seq<Block>>, ghost frames: seq<nat>)
      requires SpaceOk(space) && |classes| == k < CLASSES && k < |pages| && c !in classes && Started(k, pages)
      requires forall i, j :: 0 <= i < j < k ==> classes[i] != classes[j]
      requires AllSized(classes, bs) && AllApart(bs) && AllPlaced(bs, frames) && Keeps(frames, Frames(space))
      requires Sized(c, k, c.blocks) && Mapped(space, c.blocks) && FirstPage(c, pages[k])
      requires Unused(bs, pages[k]) && Unplaced(frames, c.blocks[0])
      modifies this`classes
      ensures Built(k + 1) && Started(k + 1, pages) && classes == old(classes) + [c]
      ensures Frames(space) == old(Frames(space))
    {
      classes := classes + [c];
      assert classes[..k] == old(classes);
      OneMoreBuilt(k, bs, frames);
    }

    lemma ClassesSized(bs: seq<seq<Block>>)
      requires Built(|classes|) && bs == Chains()
      ensures AllSized(classes, bs)
    {
      forall i | 0 <= i < |classes| ensures Sized(classes[i], i, bs[i]) { assert ClassOk(i); }
    }

    lemma OneMoreBuilt(k: nat, bs: seq<seq<Block>>, frames: seq<nat>)
      requires SpaceOk(space) && k + 1 == |classes| <= CLASSES && |bs| == k
      requires forall i, j :: 0 <= i < j <= k ==> classes[i] != classes[j]
      requires AllSized(classes[..k], bs)
      requires Sized(classes[k], k, classes[k].blocks) && |classes[k].blocks| == 1 && Mapped(space, classes[k].blocks)
      requires AllApart(bs) && AllPlaced(bs, frames) && Unused(bs, classes[k].blocks[0].pa)
      requires Unplaced(frames, classes[k].blocks[0]) && Keeps(frames, Frames(space))
      ensures Built(k + 1)
    {
      AddedApart(bs, frames, classes[k].blocks, Chains());
      forall i | 0 <= i <= k ensures ClassOk(i) {
        if i < k {
          assert Sized(classes[..k][i], i, bs[i]);
          StillMapped(classes[i].blocks, bs, i, frames);
        }
      }
    }

    ghost predicate ClassOk(i: nat)
      requires i < |classes| <= CLASSES && space.Valid()
      reads this, classes[i], space, space.ptd, space.tables
    {
      Sized(classes[i], i, classes[i].blocks) && Mapped(space, classes[i].blocks)
    }

    ghost predicate Valid()
      reads this, classes, space, space.ptd, space.tables
    {
      && SpaceOk(space) && |classes| == CLASSES
      && (forall i, j :: 0 <= i < j < CLASSES ==> classes[i] != classes[j])
      && (forall i {:trigger ClassOk(i)} :: 0 <= i < CLASSES ==> ClassOk(i))
      && AllApart(Chains())
    }

    ghost function Chains(): (r: seq<seq<Block>>)
      reads this, classes
      ensures |r| == |classes| && forall i :: 0 <= i < |r| ==> r[i] == classes[i].blocks
    {
      seq(|classes|, i requires 0 <= i < |classes| reads this, classes => classes[i].blocks)
    }

    // No two live chunks overlap, of the same class or of different ones.
    lemma {:induction false} LiveNeverOverlap(i: nat, a: nat, j: nat, b: nat)
      requires Valid() && i <= j < CLASSES && a in classes[i].live && b in classes[j].live && (i, a) != (j, b)
      ensures Disjoint(a, SizeOf(i), b, SizeOf(j))
    {
      assert ClassOk(i) && ClassOk(j);
      var p, q := classes[i], classes[j];
      if i == j {
        LiveApart(p.blocks, p.size, p.free, p.live, a, b);
      } else {
        assert Chains()[i] == p.blocks && Chains()[j] == q.blocks;
        ClassesApart(p.blocks, p.size, q.blocks, q.size, a, b);
      }
    }

    // Pages stay mapped while no mapping is taken back.
    lemma StillMapped(c: seq<Block>, bs: seq<seq<Block>>, k: nat, frames: seq<nat>)
      requires space.Valid() && k < |bs| && bs[k] == c && AllPlaced(bs, frames) && |frames| == PageTable.PAGES
      requires Keeps(frames, Frames(space))
      ensures Mapped(space, c)
    {
      forall l | 0 <= l < |c| ensures BlockMapped(space, c[l]) {
        assert PlacedAt(frames, bs[k][l]);
      }
    }

    lemma ChainsPlaced(frames: seq<nat>)
      requires space.Valid() && |classes| <= CLASSES && frames == Frames(space)
      requires forall k {:trigger ClassOk(k)} :: 0 <= k < |classes| ==> ClassOk(k)
      ensures AllPlaced(Chains(), frames)
    {
      var bs := Chains();
      forall k, l | 0 <= k < |bs| && 0 <= l < |bs[k]| ensures PlacedAt(frames, bs[k][l]) {
        assert ClassOk(k) && BlockMapped(space, bs[k][l]);
      }
    }

    // An exhausted class needs a new page: a frame that is not in use here, a place to
    // map it, and a chain whose end the source finds.
    ghost predicate CanServe(c: nat, page: u32)
      requires Valid() && c < CLASSES
      reads this, classes, space, space.ptd, space.tables
    {
      classes[c].head == 0 ==>
        |classes[c].blocks| <= 2 && page > 0 && page % PAGE == 0 && Unused(Chains(), page)
        && exists n :: IsHole(space, n)
    }

    // memory_alloc for sizes the classes cover: the first class whose chunks are
    // large enough. page is what kmalloc would give for a new page.
    method MemoryAlloc(size: u32, page: u32) returns (va: nat, ghost i: nat, ghost chunk: nat)
      requires Valid() && size <= SizeOf(CLASSES - 1)
      requires CanServe(FirstFit(0, size), page)
      modifies classes, space, space.ptd, space.tables
      ensures Valid() && fresh(space.tables - old(space.tables))
      ensures i < CLASSES && size <= SizeOf(i) && (i > 0 ==> SizeOf(i - 1) < size)
      ensures classes[i].live == old(classes[i].live) + {chunk} && chunk !in old(classes[i].live)
      ensures forall k :: 0 <= k < CLASSES && k != i ==> classes[k].live == old(classes[k].live)
      ensures va / PAGE < PageTable.PAGES && space.Frame(va / PAGE) > 0 && space.Frame(va / PAGE) + va % PAGE == chunk
    {
      var c := FirstFit(0, size);
      ghost var bs, frames := Chains(), Frames(space);
      ChainsPlaced(frames);
      ClassesSized(bs);
      assert ClassOk(c);
      va, chunk := ServeFrom(space, classes, c, page, bs, frames);
      i := c;
      Rebuilt(c, bs, frames, page);
    }

    lemma Rebuilt(c: nat, bs: seq<seq<Block>>, frames: seq<nat>, page: nat)
      requires SpaceOk(space) && c < |classes| == CLASSES == |bs| && AllApart(bs)
      requires forall i, j :: 0 <= i < j < CLASSES ==> classes[i] != classes[j]
      requires Sized(classes[c], c, classes[c].blocks) && Mapped(space, classes[c].blocks)
      requires OthersSized(classes, c, bs) && AllPlaced(bs, frames) && Keeps(frames, Frames(space))
      requires SameOrGrown(bs, frames, c, page, classes[c].blocks)
      ensures Valid()
    {
      GrownApart(bs, frames, c, page, Chains());
      forall k | 0 <= k < CLASSES ensures ClassOk(k) {
        if k != c {
          assert Sized(classes[k], k, bs[k]);
          StillMapped(classes[k].blocks, bs, k, frames);
        }
      }
    }

    // A virtual address that translates to a live chunk of class k.
    ghost predicate LiveAt(k: nat, va: u32)
      requires k < |classes| && space.Valid() && va / PAGE < PageTable.PAGES
      reads this, classes, space, space.ptd, space.tables
    {
      space.Frame(va / PAGE) > 0 && space.Frame(va / PAGE) + va % PAGE in classes[k].live
    }

    method GiveBack(c: SizeClass, va: u32, ghost a: nat)
      requires space.Valid() && c.Valid() && Mapped(space, c.blocks) && va / PAGE < PageTable.PAGES && a in c.live
      requires space.Frame(va / PAGE) % PAGE == 0 && space.Frame(va / PAGE) > 0
      requires space.Frame(va / PAGE) + va % PAGE == a
      modifies c`mem, c`head, c`free, c`live
      ensures c.Valid() && Mapped(space, c.blocks) && c.live == old(c.live) - {a}
    {
      var pa := space.VaToPa(va);
      assert pa == a;
      c.Give(pa);
    }

    // What memory_free does once the page is found: the address is translated by the
    // page table and the chunk goes to the front of the class's free list.
    method FreeIn(k: nat, c: SizeClass, va: u32, ghost a: nat)
      requires Valid() && k < CLASSES && c == classes[k] && va / PAGE < PageTable.PAGES && LiveAt(k, va)
      requires a == space.Frame(va / PAGE) + va % PAGE
      modifies c`mem, c`head, c`free, c`live
      ensures Valid() && c.live == old(c.live) - {a}
    {
      assert ClassOk(k);
      ghost var bs := Chains();
      GiveBack(c, va, a);
      assert Chains() == bs;
      forall l | 0 <= l < CLASSES ensures ClassOk(l) { assert old(ClassOk(l)); }
    }

    // The search of memory_free over classes and pages.
    method FindClass(va: u32) returns (k: nat)
      requires |classes| == CLASSES
      ensures k <= CLASSES && (k < CLASSES ==> old(classes[k].InPages(va)))
      ensures forall l :: 0 <= l < k ==> !old(classes[l].InPages(va))
    {
      k := 0;
      while k < CLASSES
        invariant k <= CLASSES && forall l :: 0 <= l < k ==> !old(classes[l].InPages(va))
      {
        var found := classes[k].FindPage(va);
        if found {
          return;
        }
        k := k + 1;
      }
    }

    // memory_free of a live chunk's address, or of one in no page of the pool: the
    // first class with the page takes it.
    method MemoryFree(va: u32) returns (err: nat, ghost k: nat, ghost chunk: nat)
      requires Valid() && va / PAGE < PageTable.PAGES
      requires forall k :: 0 <= k < CLASSES && classes[k].InPages(va) ==> LiveAt(k, va)
      modifies classes
      ensures Valid() && classes == old(classes) && chunk == old(space.Frame(va / PAGE)) + va % PAGE
      ensures err == 1 ==> forall l :: 0 <= l < CLASSES ==> !old(classes[l].InPages(va)) && unchanged(classes[l])
      ensures err != 1 ==> err == 0 && k < CLASSES && old(classes[k].InPages(va)) && Dropped(k, chunk)
    {
      chunk := space.Frame(va / PAGE) + va % PAGE;
      var c := FindClass(va);
      k := c;
      if c == CLASSES {
        return 1, k, chunk;
      }
      FreeIn(c, classes[c], va, chunk);
      err := 0;
    }

    // Class k has lost the live chunk a, and no other class any.
    twostate predicate Dropped(k: nat, a: nat)
      requires classes == old(classes)
      reads this, classes
    {
      forall l :: 0 <= l < |classes| ==> classes[l].live == old(classes[l].live) - (if l == k then {a} else {})
    }
  }
}
