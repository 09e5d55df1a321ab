// The FAT behind its two-slot cache: both on-disk copies, the sector buffers and
// the table of entries they stand for.
module FatTable {
  import opened Bytes
  import opened Words
  import opened Clock
  import opened CacheView
  import opened FatBytes

  const SECTOR: nat := 512

  // The n sectors from first on, numbered from first.
  ghost function Copy(d: Disk, first: nat, n: nat): Disk {
    map a | first <= a < first + n && a in d :: d[a]
  }

  // The same sector in the second copy.
  ghost function Twin(a: int, n: nat): int {
    a + n
  }

  // Both copies are on the disk and agree.
  ghost predicate Mirrored(d: Disk, first: nat, n: nat) {
    forall a :: first <= a < first + n ==> a in d && Twin(a, n) in d && d[Twin(a, n)] == d[a]
  }

  ghost predicate InBoth(d: Disk, a: int, n: nat, b: Blk) {
    a in d && a + n in d && d[a] == d[a + n] == b
  }

  ghost predicate TableFits(view: Disk, first: nat, n: nat) {
    n * 128 <= 0x4000_0000 && forall a :: first <= a < first + n ==> a in view && |view[a]| == SECTOR
  }

  // The table seen through the cache: entry c is its 32-bit word.
  ghost function Entry(view: Disk, first: nat, n: nat, c: u32): u32
    requires TableFits(view, first, n) && c < 128 * n
  {
    WithinSectors(c, n);
    GetU32(view[first + EntrySector(c)], EntryOffset(c))
  }

  lemma EntryIs(view: Disk, first: nat, n: nat, c: u32, a: nat, o: nat)
    requires TableFits(view, first, n) && c < 128 * n && a == first + EntrySector(c) && o == EntryOffset(c)
    ensures a < first + n && a in view && |view[a]| == SECTOR && Entry(view, first, n, c) == GetU32(view[a], o)
  {
    WithinSectors(c, n);
  }

  lemma MirroredWrite(d: Disk, first: nat, n: nat, c: int, b: Blk, d': Disk)
    requires Mirrored(d, first, n) && first <= c < first + n && d' == d[c := b][Twin(c, n) := b]
    ensures Mirrored(d', first, n) && Copy(d', first, n) == Copy(d, first, n)[c := b] && d'.Keys == d.Keys
  {
    assert forall a :: a in d' <==> a in d;
  }

  // The cached table: slots over the first copy, and the second one like it.
  ghost predicate Good(s: seq<Slot>, d: Disk, first: nat, n: nat) {
    Mirrored(d, first, n) && Coherent(s, Copy(d, first, n), SECTOR)
  }

  ghost function Table(s: seq<Slot>, d: Disk, first: nat, n: nat): Disk {
    View(s, Copy(d, first, n))
  }

  // Writing a slot back to both copies keeps them equal and the table as it was.
  lemma WriteBackBoth(s: seq<Slot>, d: Disk, first: nat, n: nat, k: nat, s': seq<Slot>, d': Disk)
    requires Good(s, d, first, n) && k < |s| && s[k].cur != EMPTY
    requires s' == s[k := s[k].(dirty := false)] && d' == d[s[k].cur := s[k].buf][Twin(s[k].cur, n) := s[k].buf]
    ensures Good(s', d', first, n) && Table(s', d', first, n) == Table(s, d, first, n) && d'.Keys == d.Keys
  {
    var c := Copy(d, first, n);
    assert SlotFits(s[k], c, SECTOR);
    WriteBackFits(s, c, SECTOR, k);
    WriteBackView(s, c, SECTOR, k);
    MirroredWrite(d, first, n, s[k].cur, s[k].buf, d');
  }

  // A slot rewritten and marked dirty: the table changes in that sector.
  lemma PutTable(s: seq<Slot>, d: Disk, first: nat, n: nat, k: nat, s': seq<Slot>)
    requires Good(s, d, first, n) && k < |s| == |s'| && s[k].cur != EMPTY && |s'[k].buf| == SECTOR
    requires s' == s[k := Slot(s'[k].buf, s[k].cur, true, true)]
    ensures Good(s', d, first, n) && Table(s', d, first, n) == Table(s, d, first, n)[s[k].cur := s'[k].buf]
  {
    PutFits(s, Copy(d, first, n), SECTOR, k, s'[k].buf);
    PutView(s, Copy(d, first, n), SECTOR, k, s'[k].buf);
  }

  lemma GoodTableFits(s: seq<Slot>, d: Disk, first: nat, n: nat)
    requires Good(s, d, first, n) && n * 128 <= 0x4000_0000
    ensures TableFits(Table(s, d, first, n), first, n)
  {
    SeenFits(s, Copy(d, first, n), SECTOR);
  }

  lemma SlotSeen(s: seq<Slot>, d: Disk, k: nat)
    requires Coherent(s, d, SECTOR) && k < |s| && s[k].cur in d
    ensures s[k].cur in View(s, d) && View(s, d)[s[k].cur] == s[k].buf && |s[k].buf| == SECTOR
  {
    assert SlotFits(s[k], d, SECTOR);
    SeenInSlot(s, k, d);
  }

  // A sector with the low 28 bits of one word replaced.
  function Rewritten(b: Blk, o: nat, v: u32): (r: Blk)
    requires o + 4 <= |b|
    ensures |r| == |b|
  {
    SetU32(b, o, KeepHigh4(GetU32(b, o), v))
  }

  // What modifying entry c to v means for the whole table.
  ghost predicate Modified(view: Disk, view': Disk, first: nat, n: nat, c: u32, v: u32) {
    && TableFits(view, first, n) && TableFits(view', first, n) && c < 128 * n
    && Entry(view', first, n, c) % LOW28 == v % LOW28
    && Entry(view', first, n, c) / LOW28 == Entry(view, first, n, c) / LOW28
    && forall e: u32 :: e < 128 * n && e != c ==> Entry(view', first, n, e) == Entry(view, first, n, e)
  }

  // Entry c is word c % 128 of sector c / 128, low byte first, without the high half
  // of its last byte.
  ghost predicate WordRead(view: Disk, first: nat, c: u32, v: int) {
    var a, o := first + c / 128, 4 * (c % 128);
    && a in view && |view[a]| == 512
    && var b0: int, b1: int, b2: int, b3: int := view[a][o], view[a][o + 1], view[a][o + 2], view[a][o + 3];
       v == (b0 + 256 * b1 + 65536 * b2 + 16777216 * b3) % 268435456
  }

  // Writing it changes these three and a half bytes and no other byte of any sector.
  ghost predicate WordWritten(view: Disk, first: nat, c: u32, v: int, view': Disk) {
    var a, o := first + c / 128, 4 * (c % 128);
    && a in view && a in view' && |view[a]| == 512
    && WordPut(view[a], o, v, view'[a]) && view' == view[a := view'[a]]
  }

  ghost predicate WordPut(b: Blk, o: nat, v: int, b': Blk) {
    && |b'| == |b| && o + 4 <= |b|
    && b'[o] == v % 256 && b'[o + 1] == v / 256 % 256 && b'[o + 2] == v / 65536 % 256
    && b'[o + 3] == b[o + 3] / 16 * 16 + v / 16777216 % 16
    && forall i :: 0 <= i < |b| && !(o <= i < o + 4) ==> b'[i] == b[i]
  }

  lemma {:induction false} RewrittenBytes(b: Blk, o: nat, v: u32, b': Blk)
    requires o + 4 <= |b| && b' == Rewritten(b, o, v)
    ensures WordPut(b, o, v, b')
  {
    var word := GetU32(b, o);
    WordBytes(b[o], b[o + 1], b[o + 2], b[o + 3], word, v, KeepHigh4(word, v));
  }

  lemma WordBytes(b0: byte, b1: byte, b2: byte, b3: byte, word: int, v: u32, w: int)
    requires word == b0 + 0x100 * b1 + 0x1_0000 * b2 + 0x100_0000 * b3
    requires w == word - word % LOW28 + v % LOW28
    ensures 0 <= w < TWO32
    ensures w % 256 == v % 256 && w / 256 % 256 == v / 256 % 256 && w / 65536 % 256 == v / 65536 % 256
    ensures w / 16777216 == b3 / 16 * 16 + v / 16777216 % 16
  {
    assert word / LOW28 == b3 / 16;
    LowDigits(v);
    Digits(w, v % 256, v / 256 % 256, v / 65536 % 256, b3 / 16 * 16 + v / 16777216 % 16);
  }

  lemma LowDigits(v: u32)
    ensures v % LOW28 == v % 256 + 256 * (v / 256 % 256) + 65536 * (v / 65536 % 256) + 16777216 * (v / 16777216 % 16)
  {
    assert v / 65536 == v / 256 / 256 && v / 16777216 == v / 65536 / 256 && v / LOW28 == v / 16777216 / 16;
  }

  lemma ReadBytes(view: Disk, first: nat, n: nat, c: u32, a: nat, o: nat, v: u32)
    requires TableFits(view, first, n) && c < 128 * n && a == first + EntrySector(c) && o == EntryOffset(c)
    requires v == Entry(view, first, n, c) % LOW28
    ensures WordRead(view, first, c, v)
  {
    EntryIs(view, first, n, c, a, o);
    PlaceOf(c);
  }

  lemma WrittenBytes(view: Disk, first: nat, n: nat, c: u32, a: nat, o: nat, v: u32, b': Blk)
    requires TableFits(view, first, n) && c < 128 * n && a == first + EntrySector(c) && o == EntryOffset(c)
    requires a in view && |view[a]| == 512 && b' == Rewritten(view[a], o, v)
    ensures WordWritten(view, first, c, v, view[a := b'])
  {
    PlaceOf(c);
    RewrittenBytes(view[a], o, v, b');
  }

  lemma PlaceOf(c: u32)
    requires c < 0x4000_0000
    ensures EntrySector(c) == c / 128 && EntryOffset(c) == 4 * (c % 128)
  {}

  class Fat {
    const slots: array<Slot>
    const first: nat
    const perFat: nat
    var head: nat
    var disk: Disk

    ghost predicate Valid()
      reads this, slots
    {
      head < slots.Length && perFat * 128 <= 0x4000_0000 && Good(slots[..], disk, first, perFat)
    }

    ghost function Seen(): Disk
      reads this, slots
    {
      Table(slots[..], disk, first, perFat)
    }

    // Entries exist for every cluster number below 128 a sector.
    ghost predicate Within(c: u32) {
      c < 128 * perFat
    }

    ghost function At(c: u32): u32
      requires Valid() && Within(c)
      reads this, slots
    {
      GoodTableFits(slots[..], disk, first, perFat);
      Entry(Seen(), first, perFat, c)
    }

    // init_fat_buf over a volume whose two copies agree.
    constructor (n: nat, first: nat, perFat: nat, disk: Disk)
      requires n > 0 && perFat * 128 <= 0x4000_0000
      requires Mirrored(disk, first, perFat) && DiskFits(Copy(disk, first, perFat), SECTOR)
      ensures Valid() && fresh(slots) && slots.Length == n && Seen() == Copy(disk, first, perFat)
      ensures this.first == first && this.perFat == perFat && this.disk == disk
    {
      slots := new Slot[n](_ => Slot(seq(SECTOR, _ => 0), EMPTY, false, false));
      this.first, this.perFat, this.disk, head := first, perFat, disk, 0;
      new;
      AllCleanDiskIsView(slots[..], Copy(disk, first, perFat), SECTOR);
    }

    // write_fat_sector: both copies.
    method WriteSector(k: nat)
      requires Valid() && k < slots.Length
      modifies this`disk, slots
      ensures Valid() && Seen() == old(Seen()) && disk.Keys == old(disk.Keys)
      ensures slots[..] == old(slots[..])[k := old(slots[k]).(dirty := false)]
      ensures !old(slots[k].dirty) ==> disk == old(disk)
    {
      ghost var s, d := slots[..], disk;
      assert SlotFits(s[k], Copy(d, first, perFat), SECTOR);
      if slots[k].cur != EMPTY && slots[k].dirty {
        disk := disk[slots[k].cur := slots[k].buf];
        disk := disk[slots[k].cur + perFat := slots[k].buf];
        slots[k] := slots[k].(dirty := false);
        WriteBackBoth(s, d, first, perFat, k, slots[..], disk);
      } else {
        assert slots[..] == s[k := s[k].(dirty := false)];
      }
    }

    method Evict() returns (k: nat)
      requires Valid()
      modifies this, slots
      ensures Valid() && Seen() == old(Seen()) && disk.Keys == old(disk.Keys)
      ensures k < slots.Length && !slots[k].dirty
      ensures forall i :: 0 <= i < slots.Length ==> slots[..][i].cur == old(slots[..])[i].cur
      ensures (exists i :: 0 <= i < slots.Length && !old(slots[..])[i].dirty) ==> disk == old(disk)
      ensures head == Next(k, slots.Length) && Replaced(old(slots[..]), old(head), k, slots[k], slots[..])
    {
      k, head := GiveUp(slots, head, Copy(disk, first, perFat), SECTOR);
      ghost var s := slots[..];
      WriteSector(k);
      assert slots[..] == s[k := slots[k]];
      assert forall i :: 0 <= i < slots.Length ==> slots[..][i].cur == s[i].cur;
    }

    // read_fat_sector: no entry changes, whatever is replaced; the disk is
    // written only when every slot is dirty.
    method ReadSector(a: nat) returns (k: nat)
      requires Valid() && first <= a < first + perFat
      modifies this, slots
      ensures Valid() && Seen() == old(Seen()) && disk.Keys == old(disk.Keys)
      ensures HoldsSeen(k, a)
      ensures (exists i :: 0 <= i < slots.Length && !old(slots[..])[i].dirty) ==> disk == old(disk)
      ensures Holds(old(slots[..]), a) ==> Marked(old(slots[..]), old(head), k, slots[..], head)
      ensures !Holds(old(slots[..]), a) ==> Loaded(old(slots[..]), old(head), k, slots[..], head)
    {
      ghost var s := slots[..];
      k := Search(slots, a);
      if k == slots.Length {
        assert !Holds(s, a);
        k := Fetch(a);
      } else {
        assert s[k].cur == a;
        Touch(k, a);
      }
    }

    // A sector that is in a slot is marked referenced there.
    method Touch(k: nat, a: nat)
      requires Valid() && first <= a < first + perFat && k < slots.Length && slots[k].cur == a
      modifies slots
      ensures Valid() && Seen() == old(Seen()) && HoldsSeen(k, a)
      ensures Marked(old(slots[..]), head, k, slots[..], head)
    {
      ghost var s := slots[..];
      slots[k] := slots[k].(referenced := true);
      BitsDoNotShow(s, slots[..], Copy(disk, first, perFat), SECTOR);
      SlotSeen(slots[..], Copy(disk, first, perFat), k);
    }

    // Slot k holds what is seen of sector a.
    ghost predicate HoldsSeen(k: nat, a: nat)
      reads this, slots
    {
      && k < slots.Length && slots[k].cur == a && a in Seen()
      && slots[k].buf == Seen()[a] && |slots[k].buf| == SECTOR
    }

    // A sector that is in no slot takes the place of one that is given up.
    method Fetch(a: nat) returns (k: nat)
      requires Valid() && first <= a < first + perFat && Find(slots[..], a) == slots.Length
      modifies this, slots
      ensures Valid() && Seen() == old(Seen()) && disk.Keys == old(disk.Keys)
      ensures HoldsSeen(k, a)
      ensures (exists i :: 0 <= i < slots.Length && !old(slots[..])[i].dirty) ==> disk == old(disk)
      ensures Loaded(old(slots[..]), old(head), k, slots[..], head)
    {
      assert forall i :: 0 <= i < |slots[..]| ==> slots[..][i].cur != a;
      k := Evict();
      ghost var d, s := Copy(disk, first, perFat), slots[..];
      assert a in d;
      LoadFits(s, d, SECTOR, k, a);
      LoadView(s, d, SECTOR, k, a);
      slots[k] := Slot(disk[a], a, true, false);
      SlotSeen(slots[..], d, k);
      ReplacedAgain(old(slots[..]), old(head), k, s[k], s, slots[k], slots[..]);
    }

    // get_fat_entry_value: the low 28 bits, and no entry changes.
    method GetEntry(c: u32) returns (v: u32)
      requires Valid() && Within(c)
      modifies this, slots
      ensures Valid() && Seen() == old(Seen())
      ensures v == At(c) % LOW28
      ensures WordRead(Seen(), first, c, v)
    {
      var a, o := first + EntrySector(c), EntryOffset(c);
      ghost var seen := Seen();
      GoodTableFits(slots[..], disk, first, perFat);
      WithinSectors(c, perFat);
      var k := ReadSector(a);
      v := GetU32(slots[k].buf, o) % LOW28;
      EntryIs(seen, first, perFat, c, a, o);
      ReadBytes(seen, first, perFat, c, a, o, v);
    }

    // The slot takes new contents and state 3.
    method Put(k: nat, b: Blk)
      requires Valid() && k < slots.Length && slots[k].cur != EMPTY && |b| == SECTOR
      modifies slots
      ensures Valid() && Seen() == old(Seen())[old(slots[k].cur) := b]
    {
      ghost var s := slots[..];
      slots[k] := Slot(b, slots[k].cur, true, true);
      PutTable(s, disk, first, perFat, k, slots[..]);
    }

    // The low 28 bits of one word of a sector, through the cache.
    method RewriteWord(a: nat, o: nat, v: u32) returns (b': Blk)
      requires Valid() && first <= a < first + perFat && o + 4 <= SECTOR
      modifies this, slots
      ensures Valid() && a in old(Seen()) && |old(Seen())[a]| == SECTOR
      ensures b' == Rewritten(old(Seen())[a], o, v) && Seen() == old(Seen())[a := b']
    {
      var k := ReadSector(a);
      b' := Rewritten(slots[k].buf, o, v);
      Put(k, b');
    }

    // fs_modify_fat: the low 28 bits of one entry change, its high four do not,
    // and no other entry changes.
    method Modify(c: u32, v: u32)
      requires Valid() && Within(c)
      modifies this, slots
      ensures Valid() && Modified(old(Seen()), Seen(), first, perFat, c, v)
      ensures WordWritten(old(Seen()), first, c, v, Seen())
    {
      var a, o := first + EntrySector(c), EntryOffset(c);
      ghost var seen := Seen();
      GoodTableFits(slots[..], disk, first, perFat);
      WithinSectors(c, perFat);
      var b' := RewriteWord(a, o, v);
      ModifiedTable(seen, Seen(), first, perFat, c, v, a, o, b');
      WrittenBytes(seen, first, perFat, c, a, o, v, b');
    }

    // The FAT part of fs_fflush: afterwards both copies are the table as seen.
    method Flush()
      requires Valid()
      modifies this`disk, slots
      ensures Valid() && Seen() == old(Seen())
      ensures forall a :: first <= a < first + perFat ==>
        a in Seen() && InBoth(disk, a, perFat, Seen()[a])
    {
      var i := 0;
      while i < slots.Length
        invariant i <= slots.Length && Valid() && Seen() == old(Seen())
        invariant forall j :: 0 <= j < i ==> !slots[..][j].dirty
      {
        WriteSector(i);
        i := i + 1;
      }
      AllCleanDiskIsView(slots[..], Copy(disk, first, perFat), SECTOR);
      forall a | first <= a < first + perFat
        ensures a in Seen() && InBoth(disk, a, perFat, Seen()[a]) {
        assert a in Copy(disk, first, perFat) && Twin(a, perFat) in disk;
      }
    }
  }

  lemma WithinSectors(c: u32, n: nat)
    requires c < 128 * n && 128 * n <= 0x4000_0000
    ensures EntrySector(c) < n && Mul32(c, 4) == 4 * c
  {}

  lemma {:induction false} ModifiedTable(view: Disk, view': Disk, first: nat, n: nat, c: u32, v: u32,
                                         a: nat, o: nat, b': Blk)
    requires TableFits(view, first, n) && c < 128 * n && a == first + EntrySector(c) && o == EntryOffset(c)
    requires a in view && |view[a]| == SECTOR && b' == Rewritten(view[a], o, v) && view' == view[a := b']
    ensures Modified(view, view', first, n, c, v)
  {
    var b := view[a];
    WithinSectors(c, n);
    var word := KeepHigh4(GetU32(b, EntryOffset(c)), v);
    SetGet(b, EntryOffset(c), word);
    forall e: u32 | e < 128 * n && e != c
      ensures EntrySector(e) == EntrySector(c) ==>
                GetU32(SetU32(b, EntryOffset(c), word), EntryOffset(e)) == GetU32(b, EntryOffset(e)) {
      if EntrySector(e) == EntrySector(c) {
        EntriesApart(c, e);
        SetElsewhere(b, EntryOffset(c), word, EntryOffset(e));
      }
    }
  }
}
