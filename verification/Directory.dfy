// ext2_append_to_end and ext2_make_empty: a directory as a list of blocks.
module Directory {
  import opened Bytes
  import opened Words
  import opened DirSpec

  const BLOCK: nat := 4096
  const DIRECT_BLOCKS: nat := 12

  ghost predicate Zero(b: seq<byte>) {
    forall i :: 0 <= i < |b| ==> b[i] == 0
  }

  // kernel_memcpy into a block.
  method CopyBytes(block: array<byte>, at: nat, d: seq<byte>)
    requires at + |d| <= block.Length
    modifies block
    ensures block[..] == Splice(old(block[..]), at, d)
  {
    var i := 0;
    while i < |d|
      invariant 0 <= i <= |d|
      invariant forall j :: 0 <= j < block.Length ==>
        block[j] == if at <= j < at + i then d[j - at] else old(block[..])[j]
    {
      block[at + i] := d[i];
      i := i + 1;
    }
  }

  // Cutting a record short and writing a new one behind it is a split.
  lemma SplitWritten(b: seq<byte>, b1: seq<byte>, b2: seq<byte>, p: nat, e: Entry, k: nat, q: nat, rest: nat, end: nat)
    requires Record(b, p) && |b| <= BLOCK && |e.name| < 256 && k == RecLen(NameLen(b, p)) && q == p + k
    requires end == p + Rec(b, p) == q + rest && rest >= RecLen(|e.name|) && rest < 0x1_0000 && rest % 4 == 0
    requires b1 == Splice(b, p + 4, [k % 256, k / 256]) && b2 == Splice(b1, q, Encoded(e, rest))
    ensures Split(b, b2, p, e)
  {
    KeptOutside(b, b1, b2, p, q, k, Encoded(e, rest));
    assert b2[..p] == b[..p] && b2[end..] == b[end..];
    HeaderKept(b, b2, p, k, q);
    NewRecord(b1, b2, q, e, rest);
  }

  lemma NewRecord(b: seq<byte>, b': seq<byte>, q: nat, e: Entry, rest: nat)
    requires |e.name| < 256 && RecLen(|e.name|) <= rest < 0x1_0000 && rest % 4 == 0 && q + rest <= |b|
    requires b' == Splice(b, q, Encoded(e, rest))
    ensures Record(b', q) && EntryAt(b', q) == e && Rec(b', q) == rest
  {
    var d := Encoded(e, rest);
    assert b'[q..q + |d|] == d;
    EncodedReads(b', q, e, rest);
  }

  lemma HeaderKept(b: seq<byte>, b': seq<byte>, p: nat, k: nat, q: nat)
    requires Record(b, p) && k == RecLen(NameLen(b, p)) <= BLOCK && q == p + k && |b'| == |b|
    requires forall i :: p <= i < q && i != p + 4 && i != p + 5 ==> b'[i] == b[i]
    requires b'[p + 4] == k % 256 && b'[p + 5] == k / 256
    ensures Record(b', p) && Rec(b', p) == k && EntryAt(b', p) == EntryAt(b, p)
  {
    assert b'[p + 6] == b[p + 6];
    assert NameLen(b', p) == NameLen(b, p);
    assert b'[p + 8..p + 8 + NameLen(b, p)] == b[p + 8..p + 8 + NameLen(b, p)];
  }

  // The record at a position gives up what its name does not need to e.
  method SplitRecord(block: array<byte>, at: nat, e: Entry, ghost need: nat)
    requires block.Length == BLOCK && |e.name| < 256 && need == RecLen(|e.name|)
    requires Tiled(block[..], 0) && at == FirstRoom(block[..], 0, need) < BLOCK
    modifies block
    ensures Tiled(block[..], 0) && Walk(block[..], 0) == Inserted(old(block[..]), 0, need, e)
    ensures CutBytes(old(block[..]), block[..], at, e)
  {
    ghost var b := block[..];
    var rec := Rec(block[..], at);
    var k := RecLen(NameLen(block[..], at));
    RoomIsSlack(b, at, need);
    RestAligned(rec, NameLen(b, at));
    CopyBytes(block, at + 4, [k % 256, k / 256]);
    ghost var b1 := block[..];
    CopyBytes(block, at + k, Encoded(e, rec - k));
    SplitWritten(b, b1, block[..], at, e, k, at + k, rec - k, at + rec);
    SplitWalk(b, block[..], 0, need, e, at);
    SplitBytes(b, b1, block[..], at, e, k, at + k, rec - k);
  }

  lemma SplitBytes(b: seq<byte>, b1: seq<byte>, b2: seq<byte>, p: nat, e: Entry, k: nat, q: nat, rest: nat)
    requires Record(b, p) && |b| <= BLOCK && |e.name| < 256 && k == RecLen(NameLen(b, p)) && q == p + k
    requires p + Rec(b, p) == q + rest && rest >= RecLen(|e.name|) && rest < 0x1_0000
    requires b1 == Splice(b, p + 4, [k % 256, k / 256]) && b2 == Splice(b1, q, Encoded(e, rest))
    ensures CutBytes(b, b2, p, e)
  {
    var d := Encoded(e, rest);
    var n: int := b[p + 6];
    RoundedUp(n, k);
    assert b2[q..q + |d|] == d;
    EncodedReads(b2, q, e, rest);
    KeptOutside(b, b1, b2, p, q, k, d);
  }

  lemma RoundedUp(n: nat, k: nat)
    requires k == RecLen(n)
    ensures k == (n + 11) / 4 * 4
  {}

  // The two writes leave everything else of the block as it was.
  lemma KeptOutside(b: seq<byte>, b1: seq<byte>, b2: seq<byte>, p: nat, q: nat, k: nat, d: seq<byte>)
    requires p + 8 <= q && q + |d| <= |b| && k < 0x1_0000
    requires b1 == Splice(b, p + 4, [k % 256, k / 256]) && b2 == Splice(b1, q, d)
    ensures b2[p + 4] == k % 256 && b2[p + 5] == k / 256
    ensures forall i :: 0 <= i < |b| && i != p + 4 && i != p + 5 && !(q <= i < q + |d|) ==> b2[i] == b[i]
  {}

  lemma RestAligned(rec: nat, nameLen: nat)
    requires rec % 4 == 0 && RecLen(nameLen) <= rec
    ensures (rec - RecLen(nameLen)) % 4 == 0
  {}

  // In a tiled block both halves of the source's test come to the same.
  lemma {:induction false} RoomIsSlack(b: seq<byte>, at: nat, need: nat)
    requires Record(b, at)
    ensures Room(b, at, need) <==> Rec(b, at) - RecLen(NameLen(b, at)) >= need
    ensures var lo: int, hi: int, n: int := b[at + 4], b[at + 5], b[at + 6];
      Room(b, at, need) <==> lo + 256 * hi - (n + 11) / 4 * 4 >= need
  {
    RoundedUp(NameLen(b, at), RecLen(NameLen(b, at)));
  }

  // The walk over one block. A zeroed block takes the entry whole; a tiled one
  // behind its first record with room, and not at all without such a record.
  method AppendToBlock(block: array<byte>, e: Entry) returns (done: bool)
    requires block.Length == BLOCK && |e.name| < 256
    requires Zero(block[..]) || Tiled(block[..], 0)
    modifies block
    ensures done ==> Tiled(block[..], 0)
    ensures Zero(old(block[..])) ==> done && Walk(block[..], 0) == [e]
    ensures !Zero(old(block[..])) ==> (done <==> FirstRoom(old(block[..]), 0, RecLen(|e.name|)) < BLOCK)
    ensures !Zero(old(block[..])) && done ==> Walk(block[..], 0) == Inserted(old(block[..]), 0, RecLen(|e.name|), e)
    ensures !done ==> block[..] == old(block[..])
    ensures Zero(old(block[..])) ==> Alone(block[..], e)
    ensures !Zero(old(block[..])) && done ==>
      CutBytes(old(block[..]), block[..], FirstRoom(old(block[..]), 0, RecLen(|e.name|)), e)
  {
    ghost var b := block[..];
    var need := RecLen(|e.name|);
    var at: nat := 0;
    while at < BLOCK
      invariant at <= BLOCK && block[..] == b && (Zero(b) ==> at == 0)
      invariant !Zero(b) ==> Tiled(b, 0) && Tiled(b, at) && FirstRoom(b, 0, need) == FirstRoom(b, at, need)
      decreases BLOCK - at
    {
      var rec := Rec(block[..], at);
      if rec == 0 {
        CopyBytes(block, at, Encoded(e, BLOCK));
        FreshWritten(b, block[..], e);
        return true;
      } else if Room(block[..], at, need) {
        SplitRecord(block, at, e, need);
        return true;
      }
      at := at + rec;
    }
    done := false;
  }

  lemma FreshWritten(b: seq<byte>, b': seq<byte>, e: Entry)
    requires |b| == BLOCK && |e.name| < 256 && b' == Splice(b, 0, Encoded(e, BLOCK))
    ensures Tiled(b', 0) && Walk(b', 0) == [e] && (Zero(b) ==> Alone(b', e))
  {
    NewRecord(b, b', 0, e, BLOCK);
    OneMore(b', 0, BLOCK);
    assert b'[0..HEADER + |e.name|] == Encoded(e, BLOCK);
    EncodedReads(b', 0, e, BLOCK);
  }

  // A block with e laid out at its start, all its own, and zero behind it.
  ghost predicate Alone(b: seq<byte>, e: Entry) {
    && |b| == 4096 && Laid(b, 0, e.ino, 4096, e.kind, e.name)
    && forall i :: 8 + |e.name| <= i < |b| ==> b[i] == 0
  }

  // ----- the directory's direct blocks -----

  ghost predicate AllTiled(bs: seq<seq<byte>>) {
    forall i :: 0 <= i < |bs| ==> |bs[i]| == BLOCK && Tiled(bs[i], 0)
  }

  ghost predicate HasRoom(b: seq<byte>, need: nat)
    requires Tiled(b, 0)
  {
    FirstRoom(b, 0, need) < |b|
  }

  // The blocks with e put into block i behind its first record with room.
  ghost predicate PutInto(bs: seq<seq<byte>>, bs': seq<seq<byte>>, i: nat, e: Entry) {
    && i < |bs| == |bs'| && bs' == bs[i := bs'[i]] && Tiled(bs[i], 0)
    && CutBytes(bs[i], bs'[i], FirstRoom(bs[i], 0, RecLen(|e.name|)), e)
  }

  ghost predicate FirstWithRoom(bs: seq<seq<byte>>, i: nat, need: nat)
    requires AllTiled(bs)
  {
    i < |bs| && HasRoom(bs[i], need) && forall k :: 0 <= k < i ==> !HasRoom(bs[k], need)
  }

  ghost predicate NoRoom(bs: seq<seq<byte>>, need: nat)
    requires AllTiled(bs)
  {
    forall i :: 0 <= i < |bs| ==> !HasRoom(bs[i], need)
  }

  ghost function Listing(bs: seq<seq<byte>>): seq<Entry>
    requires AllTiled(bs)
  {
    if bs == [] then [] else Walk(bs[0], 0) + Listing(bs[1..])
  }

  // after is before with e put in at i.
  ghost predicate InsertedAt(before: seq<Entry>, after: seq<Entry>, e: Entry, i: nat) {
    i <= |before| && after == before[..i] + [e] + before[i..]
  }

  // The old entries in order and e among them, not before all of them.
  ghost predicate Extended(before: seq<Entry>, after: seq<Entry>, e: Entry) {
    exists i: nat :: (i > 0 || before == []) && InsertedAt(before, after, e, i)
  }

  lemma {:induction false} ListingInsert(bs: seq<seq<byte>>, k: nat, b: seq<byte>, e: Entry, j: nat) returns (i: nat)
    requires AllTiled(bs) && k < |bs| && |b| == BLOCK && Tiled(b, 0)
    requires InsertedAt(Walk(bs[k], 0), Walk(b, 0), e, j) && j > 0
    ensures i > 0 && AllTiled(bs[k := b]) && InsertedAt(Listing(bs), Listing(bs[k := b]), e, i)
  {
    var w, rest := Walk(bs[0], 0), Listing(bs[1..]);
    if k == 0 {
      i := j;
      assert bs[k := b][1..] == bs[1..];
      assert (w + rest)[..j] == w[..j] && (w + rest)[j..] == w[j..] + rest;
    } else {
      i := ListingInsert(bs[1..], k - 1, b, e, j);
      assert bs[k := b][1..] == bs[1..][k - 1 := b];
      assert (w + rest)[..|w| + i] == w + rest[..i] && (w + rest)[|w| + i..] == rest[i..];
      i := |w| + i;
    }
  }

  lemma {:induction false} ListingAppend(bs: seq<seq<byte>>, b: seq<byte>, e: Entry)
    requires AllTiled(bs) && |b| == BLOCK && Tiled(b, 0) && Walk(b, 0) == [e]
    ensures AllTiled(bs + [b]) && Listing(bs + [b]) == Listing(bs) + [e]
  {
    if bs == [] {
      assert [b][1..] == [];
    } else {
      ListingAppend(bs[1..], b, e);
      assert (bs + [b])[1..] == bs[1..] + [b];
    }
  }

  class Dir {
    // The pages of the blocks mapped so far; the inode maps them in order.
    var blocks: seq<array<byte>>
    var size: nat

    ghost predicate Valid()
      reads this, blocks
    {
      && |blocks| <= DIRECT_BLOCKS && size == BLOCK * |blocks|
      && (forall i, j :: 0 <= i < j < |blocks| ==> blocks[i] != blocks[j])
      && AllTiled(Bytes())
    }

    ghost function Bytes(): (r: seq<seq<byte>>)
      reads this, blocks
      ensures |r| == |blocks| && forall i :: 0 <= i < |r| ==> r[i] == blocks[i][..]
    {
      seq(|blocks|, i requires 0 <= i < |blocks| reads this, blocks => blocks[i][..])
    }

    constructor ()
      ensures Valid() && blocks == []
    {
      blocks, size := [], 0;
    }

    method TryBlock(i: nat, e: Entry) returns (done: bool)
      requires Valid() && i < |blocks| && |e.name| < 256
      modifies blocks[i]
      ensures Valid() && (done <==> HasRoom(old(Bytes())[i], RecLen(|e.name|)))
      ensures !done ==> Bytes() == old(Bytes())
      ensures done ==> Extended(old(Listing(Bytes())), Listing(Bytes()), e) && PutInto(old(Bytes()), Bytes(), i, e)
    {
      ghost var bs, need := Bytes(), RecLen(|e.name|);
      assert !Zero(bs[i]) by { assert Tiled(bs[i], 0); }
      done := AppendToBlock(blocks[i], e);
      ghost var b' := blocks[i][..];
      assert Bytes() == bs[i := b'];
      if done {
        ghost var j := InsertedIsInsertion(bs[i], 0, need, e);
        ghost var at := ListingInsert(bs, i, b', e, j);
      }
    }

    method NewBlock(e: Entry)
      requires Valid() && |blocks| < DIRECT_BLOCKS && |e.name| < 256
      modifies this
      ensures Valid() && |blocks| == |old(blocks)| + 1 && blocks[..|old(blocks)|] == old(blocks)
      ensures fresh(blocks[|old(blocks)|]) && Listing(Bytes()) == old(Listing(Bytes())) + [e]
      ensures Bytes()[..|old(blocks)|] == old(Bytes()) && Alone(Bytes()[|old(blocks)|], e)
    {
      ghost var bs := Bytes();
      var page := new byte[BLOCK](_ => 0);
      var done := AppendToBlock(page, e);
      ghost var b' := page[..];
      ListingAppend(bs, b', e);
      blocks := blocks + [page];
      size := size + BLOCK;
      assert Bytes() == bs + [b'];
    }

    // The loop of ext2_append_to_end over the blocks there are.
    method TryBlocks(e: Entry) returns (done: bool)
      requires Valid() && |e.name| < 256
      modifies blocks
      ensures Valid() && (done <==> !old(NoRoom(Bytes(), RecLen(|e.name|))))
      ensures !done ==> Bytes() == old(Bytes())
      ensures done ==> Extended(old(Listing(Bytes())), Listing(Bytes()), e)
      ensures done ==>
        exists i :: FirstWithRoom(old(Bytes()), i, RecLen(|e.name|)) && PutInto(old(Bytes()), Bytes(), i, e)
    {
      ghost var bs, need := Bytes(), RecLen(|e.name|);
      var i := 0;
      while i < |blocks|
        invariant 0 <= i <= |blocks| && Bytes() == bs
        invariant forall k :: 0 <= k < i ==> !HasRoom(bs[k], need)
      {
        done := TryBlock(i, e);
        if done {
          assert FirstWithRoom(bs, i, need);
          return;
        }
        i := i + 1;
      }
      done := false;
    }

    // ext2_append_to_end over the direct blocks: the first block with room takes
    // the entry; with none, a fresh zeroed block does; with no block left, nothing.
    method Append(e: Entry)
      requires Valid() && |e.name| < 256
      modifies this, blocks
      ensures Valid() && |blocks| >= |old(blocks)| && blocks[..|old(blocks)|] == old(blocks)
      ensures forall k :: |old(blocks)| <= k < |blocks| ==> fresh(blocks[k])
      ensures |blocks| > |old(blocks)| <==> |old(blocks)| < 12 && old(NoRoom(Bytes(), RecLen(|e.name|)))
      ensures if |old(blocks)| == 12 && old(NoRoom(Bytes(), RecLen(|e.name|))) then Bytes() == old(Bytes())
              else Extended(old(Listing(Bytes())), Listing(Bytes()), e)
      ensures !old(NoRoom(Bytes(), RecLen(|e.name|))) ==>
        exists i :: FirstWithRoom(old(Bytes()), i, RecLen(|e.name|)) && PutInto(old(Bytes()), Bytes(), i, e)
      ensures |blocks| > |old(blocks)| ==>
        Bytes()[..|old(blocks)|] == old(Bytes()) && Alone(Bytes()[|old(blocks)|], e)
    {
      ghost var before := Listing(Bytes());
      var done := TryBlocks(e);
      if !done && |blocks| < DIRECT_BLOCKS {
        NewBlock(e);
        AtTheEnd(before, Listing(Bytes()), e);
      }
    }

    // ext2_make_empty on a new directory.
    method MakeEmpty(self: u32, parent: u32, kind: byte, parentKind: byte)
      requires Valid() && blocks == []
      modifies this
      ensures Valid() && |blocks| == 1
      ensures Listing(Bytes()) == [Entry(self, kind, DOT), Entry(parent, parentKind, DOT + DOT)]
      ensures var b := Bytes()[0];
        && |b| == 4096 && Laid(b, 0, self, 12, kind, [46]) && Laid(b, 12, parent, 4084, parentKind, [46, 46])
        && forall i :: 9 <= i < 12 || 22 <= i < 4096 ==> b[i] == 0
    {
      var d, dd := Entry(self, kind, DOT), Entry(parent, parentKind, DOT + DOT);
      NewBlock(d);
      assert Listing(Bytes()) == [d];
      OneEntryHasRoom(Bytes()[0], d, RecLen(2));
      ghost var b := Bytes()[0];
      var done := TryBlock(0, dd);
      DotsLaid(b, Bytes()[0], d, dd);
      InsertedAfterOne(d, Listing(Bytes()), dd);
    }
  }

  lemma AtTheEnd(before: seq<Entry>, after: seq<Entry>, e: Entry)
    requires after == before + [e]
    ensures Extended(before, after, e)
  {
    assert InsertedAt(before, after, e, |before|);
  }

  const DOT: seq<byte> := [46]

  lemma DotsLaid(b: seq<byte>, b': seq<byte>, d: Entry, dd: Entry)
    requires Alone(b, d) && d.name == DOT && dd.name == DOT + DOT && Tiled(b, 0)
    requires CutBytes(b, b', FirstRoom(b, 0, 12), dd)
    ensures |b'| == 4096 && Laid(b', 0, d.ino, 12, d.kind, [46]) && Laid(b', 12, dd.ino, 4084, dd.kind, [46, 46])
    ensures forall i :: 9 <= i < 12 || 22 <= i < 4096 ==> b'[i] == 0
  {
    assert FirstRoom(b, 0, 12) == 0;
    assert b'[8] == b[8] == b[8..9][0];
    assert b'[8..9] == [46];
  }

  lemma OneEntryHasRoom(b: seq<byte>, d: Entry, need: nat)
    requires |b| == BLOCK && Tiled(b, 0) && Walk(b, 0) == [d] && |d.name| + need < BLOCK - 16
    ensures HasRoom(b, need)
  {
    assert Walk(b, 0) == [EntryAt(b, 0)] + Walk(b, Rec(b, 0));
    assert Walk(b, 0)[0] == EntryAt(b, 0) && |Walk(b, 0)| == 1 + |Walk(b, Rec(b, 0))|;
    assert Rec(b, 0) == BLOCK;
    assert |EntryAt(b, 0).name| == NameLen(b, 0);
  }

  lemma InsertedAfterOne(d: Entry, after: seq<Entry>, e: Entry)
    requires Extended([d], after, e)
    ensures after == [d, e]
  {
    var i: nat :| i > 0 && InsertedAt([d], after, e, i);
  }
}
