// What a reader sees through the slots: the slot holding a block if there is
// one, else the disk. Every cache operation is judged by this view.
module CacheView {
  import opened Clock

  type Disk = map<int, Blk>

  // The search loop of the read functions: the first slot holding address a.
  function Find(s: seq<Slot>, a: int): (k: nat)
    ensures k <= |s| && (k < |s| ==> s[k].cur == a) && forall i :: 0 <= i < k ==> s[i].cur != a
  {
    if s == [] then 0 else if s[0].cur == a then 0 else 1 + Find(s[1..], a)
  }

  ghost function View(s: seq<Slot>, d: Disk): Disk {
    map a | a in d :: if Find(s, a) < |s| then s[Find(s, a)].buf else d[a]
  }

  // Slots hold distinct blocks of the disk, and the clean ones agree with it.
  ghost predicate SlotFits(x: Slot, d: Disk, unit: nat) {
    && |x.buf| == unit && (x.cur == EMPTY || x.cur in d) && (x.cur == EMPTY ==> !x.dirty)
    && (!x.dirty && x.cur != EMPTY ==> x.buf == d[x.cur])
  }

  ghost predicate DiskFits(d: Disk, unit: nat) {
    forall a :: a in d ==> |d[a]| == unit && 0 <= a < EMPTY
  }

  ghost predicate Apart(s: seq<Slot>) {
    forall i, j :: 0 <= i < j < |s| && s[i].cur != EMPTY ==> s[i].cur != s[j].cur
  }

  ghost predicate Coherent(s: seq<Slot>, d: Disk, unit: nat) {
    DiskFits(d, unit) && Apart(s) && forall i :: 0 <= i < |s| ==> SlotFits(s[i], d, unit)
  }

  lemma FindOnly(s: seq<Slot>, a: int, k: nat)
    requires Apart(s) && k < |s| && s[k].cur == a && a != EMPTY
    ensures Find(s, a) == k
  {
    assert Find(s, a) <= k;
  }

  lemma FirstIsFind(s: seq<Slot>, a: int, k: nat)
    requires k <= |s| && (k < |s| ==> s[k].cur == a) && forall i :: 0 <= i < k ==> s[i].cur != a
    ensures Find(s, a) == k
  {}

  lemma FindNone(s: seq<Slot>, a: int)
    requires forall i :: 0 <= i < |s| ==> s[i].cur != a
    ensures Find(s, a) == |s|
  {}

  // Same blocks in the same slots: the bits do not show.
  ghost predicate SameBlocks(s: seq<Slot>, s': seq<Slot>) {
    && |s| == |s'|
    && forall i :: 0 <= i < |s| ==> s[i].cur == s'[i].cur && s[i].buf == s'[i].buf && s[i].dirty == s'[i].dirty
  }

  lemma {:induction false} SameFind(s: seq<Slot>, s': seq<Slot>, a: int)
    requires |s| == |s'| && forall i :: 0 <= i < |s| ==> s[i].cur == s'[i].cur
    ensures Find(s, a) == Find(s', a)
  {
    if s != [] {
      SameFind(s[1..], s'[1..], a);
    }
  }

  lemma BitsFit(s: seq<Slot>, s': seq<Slot>, d: Disk, unit: nat)
    requires SameBlocks(s, s') && Coherent(s, d, unit)
    ensures Coherent(s', d, unit)
  {
    forall i | 0 <= i < |s'| ensures SlotFits(s'[i], d, unit) { assert SlotFits(s[i], d, unit); }
  }

  lemma BitsDoNotShow(s: seq<Slot>, s': seq<Slot>, d: Disk, unit: nat)
    requires SameBlocks(s, s') && Coherent(s, d, unit)
    ensures View(s', d) == View(s, d) && Coherent(s', d, unit)
  {
    BitsFit(s, s', d, unit);
    forall a | a in d ensures View(s', d)[a] == View(s, d)[a] { SeenSame(s, s', d, a); }
  }

  lemma SeenSame(s: seq<Slot>, s': seq<Slot>, d: Disk, a: int)
    requires SameBlocks(s, s') && a in d
    ensures View(s', d)[a] == View(s, d)[a]
  {
    SameFind(s, s', a);
  }

  lemma ReplaceApart(s: seq<Slot>, k: nat, x: Slot)
    requires Apart(s) && k < |s|
    requires x.cur == s[k].cur || forall i :: 0 <= i < |s| ==> s[i].cur != x.cur
    ensures Apart(s[k := x])
  {}

  // One slot replaced: what is seen at an address of another slot, or of none.
  lemma ReplaceElsewhere(s: seq<Slot>, k: nat, x: Slot, a: int, d: Disk)
    requires k < |s| && Apart(s) && Apart(s[k := x]) && a in d && a != EMPTY && a != x.cur && a != s[k].cur
    ensures View(s[k := x], d)[a] == View(s, d)[a]
  {
    var m := Find(s, a);
    if m < |s| {
      FindOnly(s[k := x], a, m);
    } else {
      FindNone(s[k := x], a);
    }
  }

  lemma SeenInSlot(s: seq<Slot>, k: nat, d: Disk)
    requires Apart(s) && k < |s| && s[k].cur in d && s[k].cur != EMPTY
    ensures View(s, d)[s[k].cur] == s[k].buf
  {
    FindOnly(s, s[k].cur, k);
  }

  lemma SeenOnDisk(s: seq<Slot>, a: int, d: Disk)
    requires a in d && forall i :: 0 <= i < |s| ==> s[i].cur != a
    ensures View(s, d)[a] == d[a]
  {
    FindNone(s, a);
  }

  // Writing a slot back leaves the view alone and the slot clean.
  lemma WriteBackFits(s: seq<Slot>, d: Disk, unit: nat, k: nat)
    requires Coherent(s, d, unit) && k < |s| && s[k].cur != EMPTY
    ensures Coherent(s[k := s[k].(dirty := false)], d[s[k].cur := s[k].buf], unit)
    ensures d[s[k].cur := s[k].buf].Keys == d.Keys
  {
    var s', d' := s[k := s[k].(dirty := false)], d[s[k].cur := s[k].buf];
    assert SlotFits(s[k], d, unit);
    assert s[k].cur in d;
    ReplaceApart(s, k, s[k].(dirty := false));
    forall i | 0 <= i < |s'| ensures SlotFits(s'[i], d', unit) { assert SlotFits(s[i], d, unit); }
  }

  lemma WriteBackView(s: seq<Slot>, d: Disk, unit: nat, k: nat)
    requires Coherent(s, d, unit) && k < |s| && s[k].cur != EMPTY
    ensures View(s[k := s[k].(dirty := false)], d[s[k].cur := s[k].buf]) == View(s, d)
  {
    var x, c := s[k].(dirty := false), s[k].cur;
    var s', d' := s[k := x], d[c := s[k].buf];
    assert SlotFits(s[k], d, unit);
    WriteBackFits(s, d, unit, k);
    forall a | a in d ensures View(s', d')[a] == View(s, d)[a] {
      if a == c {
        SeenInSlot(s, k, d);
        SeenInSlot(s', k, d');
      } else {
        ReplaceElsewhere(s, k, x, a, d);
        assert d'[a] == d[a];
      }
    }
  }

  // Loading a block nobody holds over a clean slot leaves the view alone.
  lemma LoadFits(s: seq<Slot>, d: Disk, unit: nat, k: nat, a: int)
    requires Coherent(s, d, unit) && k < |s| && !s[k].dirty && a in d
    requires forall i :: 0 <= i < |s| ==> s[i].cur != a
    ensures Coherent(s[k := Slot(d[a], a, true, false)], d, unit)
  {
    var s' := s[k := Slot(d[a], a, true, false)];
    ReplaceApart(s, k, Slot(d[a], a, true, false));
    forall i | 0 <= i < |s'| ensures SlotFits(s'[i], d, unit) { assert SlotFits(s[i], d, unit); }
  }

  lemma {:induction false} LoadView(s: seq<Slot>, d: Disk, unit: nat, k: nat, a: int)
    requires Coherent(s, d, unit) && k < |s| && !s[k].dirty && a in d
    requires forall i :: 0 <= i < |s| ==> s[i].cur != a
    ensures View(s[k := Slot(d[a], a, true, false)], d) == View(s, d)
  {
    var x := Slot(d[a], a, true, false);
    var s' := s[k := x];
    assert SlotFits(s[k], d, unit);
    LoadFits(s, d, unit, k, a);
    forall b | b in d ensures View(s', d)[b] == View(s, d)[b] {
      if b == a {
        SeenInSlot(s', k, d);
        SeenOnDisk(s, a, d);
      } else if b == s[k].cur {
        SeenInSlot(s, k, d);
        SeenOnDisk(s', b, d);
      } else {
        ReplaceElsewhere(s, k, x, b, d);
      }
    }
  }

  // A write into a slot changes the view of that one block.
  lemma PutFits(s: seq<Slot>, d: Disk, unit: nat, k: nat, b: Blk)
    requires Coherent(s, d, unit) && k < |s| && s[k].cur != EMPTY && |b| == unit
    ensures Coherent(s[k := Slot(b, s[k].cur, true, true)], d, unit)
  {
    var s' := s[k := Slot(b, s[k].cur, true, true)];
    ReplaceApart(s, k, Slot(b, s[k].cur, true, true));
    forall i | 0 <= i < |s'| ensures SlotFits(s'[i], d, unit) { assert SlotFits(s[i], d, unit); }
  }

  lemma {:induction false} PutView(s: seq<Slot>, d: Disk, unit: nat, k: nat, b: Blk)
    requires Coherent(s, d, unit) && k < |s| && s[k].cur != EMPTY && |b| == unit
    ensures View(s[k := Slot(b, s[k].cur, true, true)], d) == View(s, d)[s[k].cur := b]
  {
    var x, c := Slot(b, s[k].cur, true, true), s[k].cur;
    var s' := s[k := x];
    assert SlotFits(s[k], d, unit);
    PutFits(s, d, unit, k, b);
    forall a | a in d ensures View(s', d)[a] == View(s, d)[c := b][a] {
      if a == c {
        SeenInSlot(s', k, d);
      } else {
        ReplaceElsewhere(s, k, x, a, d);
      }
    }
  }

  // With no dirty slot the disk is what is seen.
  lemma AllCleanDiskIsView(s: seq<Slot>, d: Disk, unit: nat)
    requires Coherent(s, d, unit) && forall i :: 0 <= i < |s| ==> !s[i].dirty
    ensures View(s, d) == d
  {
    forall a | a in d ensures View(s, d)[a] == d[a] {
      var k := Find(s, a);
      if k < |s| { assert SlotFits(s[k], d, unit); }
    }
  }

  lemma SeenFits(s: seq<Slot>, d: Disk, unit: nat)
    requires Coherent(s, d, unit)
    ensures View(s, d).Keys == d.Keys && forall a :: a in d ==> |View(s, d)[a]| == unit
  {
    forall a | a in d ensures |View(s, d)[a]| == unit {
      var k := Find(s, a);
      if k < |s| { assert SlotFits(s[k], d, unit); }
    }
  }

  // The sweeps of the clock change only reference bits.
  lemma ChosenSameBlocks(s: seq<Slot>, head: nat, k: nat, s': seq<Slot>)
    requires head < |s| && Chosen(s, head, k, s')
    ensures SameBlocks(s, s') && k < |s|
  {}

  // ----- what both caches do with their slots -----

  // The loop of fs_read_4k, fs_read_512 and read_fat_sector over the slots.
  method Search(slots: array<Slot>, a: int) returns (k: nat)
    ensures k == Find(slots[..], a)
  {
    k := 0;
    while k < slots.Length && slots[k].cur != a
      invariant k <= slots.Length && forall i :: 0 <= i < k ==> slots[..][i].cur != a
    {
      k := k + 1;
    }
    FirstIsFind(slots[..], a, k);
  }

  // The clock gives up a slot, and nothing seen changes.
  method GiveUp(slots: array<Slot>, head: nat, ghost d: Disk, ghost unit: nat) returns (k: nat, head': nat)
    requires head < slots.Length && Coherent(slots[..], d, unit)
    modifies slots
    ensures k < slots.Length && head' == Next(k, slots.Length) && Chosen(old(slots[..]), head, k, slots[..])
    ensures Coherent(slots[..], d, unit) && View(slots[..], d) == View(old(slots[..]), d)
    ensures SameBlocks(old(slots[..]), slots[..])
    ensures (exists i :: 0 <= i < slots.Length && !old(slots[..])[i].dirty) ==> !slots[k].dirty
  {
    ghost var s := slots[..];
    k, head' := Victim(slots, head);
    ChosenSameBlocks(s, head, k, slots[..]);
    BitsDoNotShow(s, slots[..], d, unit);
    DirtyVictimOnlyIfAllDirty(s, head, k, slots[..]);
  }
}
