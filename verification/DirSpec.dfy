// ext2 directory blocks: records tiling a block, read by following rec_len.
module DirSpec {
  import opened Bytes
  import opened Words

  // ino, name_len bytes of name, file_type; rec_len is only how far the next record is.
  datatype Entry = Entry(ino: u32, kind: byte, name: seq<byte>)

  const HEADER: nat := 8

  // EXT2_DIR_REC_LEN: header and name rounded up to a multiple of four.
  function RecLen(nameLen: nat): (r: nat)
    ensures r % 4 == 0 && HEADER + nameLen <= r < HEADER + nameLen + 4
  {
    var n := nameLen + 8 + 3;
    n - n % 4
  }

  function Half(b: seq<byte>, o: nat): nat
    requires o + 2 <= |b|
  {
    var lo: int, hi: int := b[o], b[o + 1];
    lo + 256 * hi
  }

  // rec_len and name_len of the record at a position.
  function Rec(b: seq<byte>, at: nat): nat
    requires at + 8 <= |b|
  {
    Half(b, at + 4)
  }

  function NameLen(b: seq<byte>, at: nat): nat
    requires at + 8 <= |b|
  {
    b[at + 6]
  }

  // A record: four-aligned, room for its name, inside the block.
  ghost predicate Record(b: seq<byte>, at: nat) {
    && at + 8 <= |b|
    && Rec(b, at) % 4 == 0 && RecLen(NameLen(b, at)) <= Rec(b, at) && at + Rec(b, at) <= |b|
  }

  // From at on, records tile the block to its end.
  ghost predicate Tiled(b: seq<byte>, at: nat)
    decreases |b| - at
  {
    at == |b| || (Record(b, at) && Tiled(b, at + Rec(b, at)))
  }

  ghost function EntryAt(b: seq<byte>, at: nat): Entry
    requires Record(b, at)
  {
    Entry(GetU32(b, at), b[at + 7], b[at + 8..at + 8 + NameLen(b, at)])
  }

  // What a reader following rec_len finds.
  ghost function Walk(b: seq<byte>, at: nat): seq<Entry>
    requires Tiled(b, at)
    decreases |b| - at
  {
    if at == |b| then [] else [EntryAt(b, at)] + Walk(b, at + Rec(b, at))
  }

  // The test of the source: need bytes to spare in the record, the last one
  // being measured to the end of the block.
  predicate Room(b: seq<byte>, at: nat, need: nat)
    requires at + 8 <= |b|
  {
    || (at + Rec(b, at) >= |b| && |b| - at - RecLen(NameLen(b, at)) >= need)
    || Rec(b, at) - RecLen(NameLen(b, at)) >= need
  }

  // The first record with room, or the end.
  ghost function FirstRoom(b: seq<byte>, at: nat, need: nat): (p: nat)
    requires Tiled(b, at)
    ensures at <= p <= |b| && Tiled(b, p) && (p < |b| ==> Record(b, p) && Room(b, p, need))
    decreases |b| - at
  {
    if at == |b| || Room(b, at, need) then at else FirstRoom(b, at + Rec(b, at), need)
  }

  // Following rec_len from at leads to r.
  ghost predicate Reaches(b: seq<byte>, at: nat, r: nat)
    requires Tiled(b, at)
    decreases |b| - at
  {
    r == at || (at < |b| && Reaches(b, at + Rec(b, at), r))
  }

  // It is the first: no record met before it has room.
  lemma {:induction false} FirstRoomIsFirst(b: seq<byte>, at: nat, need: nat, r: nat)
    requires Tiled(b, at) && at <= r < |b| && Reaches(b, at, r)
    ensures Record(b, r) && Reaches(b, at, FirstRoom(b, at, need))
    ensures r < FirstRoom(b, at, need) ==> !Room(b, r, need)
    decreases |b| - at
  {
    if r != at {
      var next := FirstRecord(b, at);
      ReachedLater(b, next, r);
      FirstRoomIsFirst(b, next, need, r);
    } else {
      RoomReached(b, at, need);
    }
  }

  lemma {:induction false} ReachedLater(b: seq<byte>, at: nat, r: nat)
    requires Tiled(b, at) && Reaches(b, at, r)
    ensures at <= r
    decreases |b| - at
  {
    if r != at {
      var next := FirstRecord(b, at);
      ReachedLater(b, next, r);
    }
  }

  lemma {:induction false} RoomReached(b: seq<byte>, at: nat, need: nat)
    requires Tiled(b, at)
    ensures Reaches(b, at, FirstRoom(b, at, need))
    decreases |b| - at
  {
    if at < |b| && !Room(b, at, need) {
      var next := FirstRecord(b, at);
      RoomReached(b, next, need);
    }
  }

  // The entries with e put in behind the first record with room.
  ghost function Inserted(b: seq<byte>, at: nat, need: nat, e: Entry): seq<Entry>
    requires Tiled(b, at)
    decreases |b| - at
  {
    if at == |b| then []
    else if Room(b, at, need) then [EntryAt(b, at), e] + Walk(b, at + Rec(b, at))
    else [EntryAt(b, at)] + Inserted(b, at + Rec(b, at), need, e)
  }

  // The old entries in their order and the new one among them, never first.
  lemma {:induction false} InsertedIsInsertion(b: seq<byte>, at: nat, need: nat, e: Entry) returns (i: nat)
    requires Tiled(b, at) && FirstRoom(b, at, need) < |b|
    ensures 0 < i <= |Walk(b, at)| && Inserted(b, at, need, e) == Walk(b, at)[..i] + [e] + Walk(b, at)[i..]
    decreases |b| - at
  {
    if Room(b, at, need) {
      i := 1;
      assert Walk(b, at)[..1] == [EntryAt(b, at)];
    } else {
      var next := at + Rec(b, at);
      i := InsertedIsInsertion(b, next, need, e);
      i := i + 1;
      var w, x := Walk(b, next), EntryAt(b, at);
      assert Walk(b, at)[..i] == [x] + w[..i - 1] && Walk(b, at)[i..] == w[i - 1..];
      assert [x] + (w[..i - 1] + [e] + w[i - 1..]) == [x] + w[..i - 1] + [e] + w[i - 1..];
    }
  }

  // ----- the record layout, byte by byte -----

  // ino and rec_len with the low byte first, then name_len, file_type and the name.
  ghost predicate Laid(b: seq<byte>, q: nat, ino: u32, rec: nat, kind: byte, name: seq<byte>) {
    && q + 8 + |name| <= |b|
    && b[q] == ino % 256 && b[q + 1] == ino / 256 % 256
    && b[q + 2] == ino / 65536 % 256 && b[q + 3] == ino / 16777216
    && b[q + 4] == rec % 256 && b[q + 5] == rec / 256
    && b[q + 6] == |name| && b[q + 7] == kind
    && b[q + 8..q + 8 + |name|] == name
  }

  // The record at p keeps what its name needs, rounded up to four bytes, and e has the
  // rest of its length behind it; no other byte changes.
  ghost predicate CutBytes(b: seq<byte>, b': seq<byte>, p: nat, e: Entry) {
    && p + 8 <= |b| == |b'|
    && var lo: int, hi: int, n: int := b[p + 4], b[p + 5], b[p + 6];
       var k := (n + 11) / 4 * 4;
       && lo + 256 * hi - k >= |e.name| + 8 && b'[p + 4] == k % 256 && b'[p + 5] == k / 256
       && Laid(b', p + k, e.ino, lo + 256 * hi - k, e.kind, e.name)
       && forall i :: 0 <= i < |b| && i != p + 4 && i != p + 5 && !(p + k <= i < p + k + 8 + |e.name|) ==> b'[i] == b[i]
  }

  // What a reader takes for the record at a position is laid out there.
  lemma {:induction false} RecordLaid(b: seq<byte>, at: nat)
    requires Record(b, at)
    ensures var e := EntryAt(b, at);
      |e.name| < 256 && Laid(b, at, e.ino, Rec(b, at), e.kind, e.name)
  {
    Digits(GetU32(b, at), b[at], b[at + 1], b[at + 2], b[at + 3]);
    var lo: int, hi: int := b[at + 4], b[at + 5];
    assert Rec(b, at) == lo + 256 * hi;
  }

  // ----- writing -----

  // The eight header bytes of a record, then its name.
  function Encoded(e: Entry, rec: nat): (r: seq<byte>)
    requires |e.name| < 256 && rec < 0x1_0000
    ensures |r| == HEADER + |e.name|
  {
    [e.ino % 0x100, e.ino / 0x100 % 0x100, e.ino / 0x1_0000 % 0x100, e.ino / 0x100_0000,
     rec % 256, rec / 256, |e.name|, e.kind] + e.name
  }

  lemma {:induction false} EncodedReads(b: seq<byte>, at: nat, e: Entry, rec: nat)
    requires |e.name| < 256 && rec < 0x1_0000 && at + HEADER + |e.name| <= |b|
    requires b[at..at + HEADER + |e.name|] == Encoded(e, rec)
    ensures Rec(b, at) == rec && NameLen(b, at) == |e.name| && Laid(b, at, e.ino, rec, e.kind, e.name)
    ensures rec % 4 == 0 && RecLen(|e.name|) <= rec && at + rec <= |b| ==> Record(b, at) && EntryAt(b, at) == e
  {
    var d := Encoded(e, rec);
    var s := b[at..at + |d|];
    assert s[0] == b[at] && s[1] == b[at + 1] && s[2] == b[at + 2] && s[3] == b[at + 3];
    assert s[4] == b[at + 4] && s[5] == b[at + 5] && s[6] == b[at + 6] && s[7] == b[at + 7];
    InoBytes(e.ino);
    assert b[at + 8..at + 8 + |e.name|] == s[8..] == d[8..];
  }

  lemma InoBytes(v: u32)
    ensures v == v % 0x100 + 0x100 * (v / 0x100 % 0x100)
                 + 0x1_0000 * (v / 0x1_0000 % 0x100) + 0x100_0000 * (v / 0x100_0000)
  {
    assert v / 0x1_0000 == v / 0x100 / 0x100 && v / 0x100_0000 == v / 0x1_0000 / 0x100;
  }

  lemma OneMore(b: seq<byte>, at: nat, next: nat)
    requires Record(b, at) && next == at + Rec(b, at) && Tiled(b, next)
    ensures Tiled(b, at) && at < |b| && Walk(b, at) == [EntryAt(b, at)] + Walk(b, next)
  {}

  // What a walk meets first, and where it goes on.
  lemma FirstRecord(b: seq<byte>, at: nat) returns (next: nat)
    requires Tiled(b, at) && at < |b|
    ensures Record(b, at) && at < next == at + Rec(b, at) <= |b| && Tiled(b, next)
    ensures Walk(b, at) == [EntryAt(b, at)] + Walk(b, next)
  {
    next := at + Rec(b, at);
  }

  // Blocks that agree from a position on are read the same from there.
  lemma {:induction false} SameTail(b: seq<byte>, b': seq<byte>, at: nat)
    requires |b| == |b'| && Tiled(b, at) && at <= |b| && b[at..] == b'[at..]
    ensures Tiled(b', at) && Walk(b', at) == Walk(b, at)
    decreases |b| - at
  {
    if at < |b| {
      var next := FirstRecord(b, at);
      LaterTail(b, b', at, next);
      SameRecord(b, b', at, next);
      SameTail(b, b', next);
      OneMore(b', at, next);
    }
  }

  lemma LaterTail(b: seq<byte>, b': seq<byte>, at: nat, next: nat)
    requires at <= next <= |b| == |b'| && b[at..] == b'[at..]
    ensures b[next..] == b'[next..] && b[at..next] == b'[at..next]
  {
    assert b[next..] == b[at..][next - at..] && b'[next..] == b'[at..][next - at..];
    assert b[at..next] == b[at..][..next - at] && b'[at..next] == b'[at..][..next - at];
  }

  lemma Agree(b: seq<byte>, b': seq<byte>, at: nat, end: nat)
    requires at <= end <= |b| == |b'| && b[at..end] == b'[at..end]
    ensures forall i :: at <= i < end ==> b[i] == b'[i]
  {
    forall i | at <= i < end ensures b[i] == b'[i] {
      assert b[i] == b[at..end][i - at] && b'[i] == b'[at..end][i - at];
    }
  }

  // A record only depends on its own bytes.
  lemma SameRecord(b: seq<byte>, b': seq<byte>, at: nat, end: nat)
    requires |b| == |b'| && Record(b, at) && at + Rec(b, at) <= end <= |b| && b[at..end] == b'[at..end]
    ensures Record(b', at) && Rec(b', at) == Rec(b, at) && NameLen(b', at) == NameLen(b, at)
    ensures EntryAt(b', at) == EntryAt(b, at)
  {
    Agree(b, b', at, end);
    assert NameLen(b, at) == NameLen(b', at);
    assert b[at + 8..at + 8 + NameLen(b, at)] == b'[at + 8..at + 8 + NameLen(b, at)];
  }

  // The record at p was cut short to hold just its name, and e follows with the
  // rest: from any earlier position the walk finds e put in there.
  ghost predicate Split(b: seq<byte>, b': seq<byte>, p: nat, e: Entry) {
    && |b'| == |b| && p <= |b| && Record(b, p) && Record(b', p)
    && b'[..p] == b[..p] && Rec(b', p) == RecLen(NameLen(b, p)) && EntryAt(b', p) == EntryAt(b, p)
    && (var q := p + Rec(b', p); var end := p + Rec(b, p);
        && Record(b', q) && EntryAt(b', q) == e && q + Rec(b', q) == end && b'[end..] == b[end..])
  }

  lemma SplitFacts(b: seq<byte>, b': seq<byte>, p: nat, e: Entry, q: nat, end: nat)
    requires Split(b, b', p, e) && end == p + Rec(b, p) && q == p + Rec(b', p)
    ensures Record(b', p) && EntryAt(b', p) == EntryAt(b, p) && Record(b', q) && EntryAt(b', q) == e
    ensures q + Rec(b', q) == end <= |b| == |b'| && b'[end..] == b[end..]
  {}

  lemma SplitHere(b: seq<byte>, b': seq<byte>, p: nat, e: Entry, q: nat, end: nat)
    requires Tiled(b, p) && p < |b| && Split(b, b', p, e) && end == p + Rec(b, p) && q == p + Rec(b', p)
    ensures Tiled(b', p) && Tiled(b, end) && Walk(b', p) == [EntryAt(b, p), e] + Walk(b, end)
  {
    SplitFacts(b, b', p, e, q, end);
    SameTail(b, b', end);
    OneMore(b', q, end);
    OneMore(b', p, q);
    Cons2(EntryAt(b, p), e, Walk(b, end));
  }

  lemma Cons2(x: Entry, y: Entry, w: seq<Entry>)
    ensures [x] + ([y] + w) == [x, y] + w
  {}

  lemma {:induction false} SplitWalk(b: seq<byte>, b': seq<byte>, at: nat, need: nat, e: Entry, p: nat)
    requires Tiled(b, at) && p == FirstRoom(b, at, need) < |b| && Split(b, b', p, e)
    ensures Tiled(b', at) && Walk(b', at) == Inserted(b, at, need, e)
    decreases |b| - at
  {
    var next := FirstRecord(b, at);
    if Room(b, at, need) {
      RoomHere(b, at, need, e, next);
      SplitHere(b, b', at, e, at + Rec(b', at), next);
    } else {
      NoRoomHere(b, at, need, e, next);
      SplitWalk(b, b', next, need, e, p);
      SplitBefore(b, b', p, at, next);
      OneMore(b', at, next);
    }
  }

  lemma RoomHere(b: seq<byte>, at: nat, need: nat, e: Entry, next: nat)
    requires Tiled(b, at) && at < |b| && Record(b, at) && next == at + Rec(b, at) && Tiled(b, next) && Room(b, at, need)
    ensures FirstRoom(b, at, need) == at && Inserted(b, at, need, e) == [EntryAt(b, at), e] + Walk(b, next)
  {}

  lemma NoRoomHere(b: seq<byte>, at: nat, need: nat, e: Entry, next: nat)
    requires Tiled(b, at) && at < |b| && Record(b, at) && next == at + Rec(b, at) && Tiled(b, next)
    requires !Room(b, at, need)
    ensures FirstRoom(b, at, need) == FirstRoom(b, next, need) >= next
    ensures Inserted(b, at, need, e) == [EntryAt(b, at)] + Inserted(b, next, need, e)
  {}

  lemma SplitBefore(b: seq<byte>, b': seq<byte>, p: nat, at: nat, next: nat)
    requires |b'| == |b| && p <= |b| && b'[..p] == b[..p] && Record(b, at) && next == at + Rec(b, at) <= p
    ensures Record(b', at) && Rec(b', at) == Rec(b, at) && EntryAt(b', at) == EntryAt(b, at)
  {
    assert b[at..next] == b[..p][at..next] && b'[at..next] == b'[..p][at..next];
    SameRecord(b, b', at, next);
  }
}
