// The block cache of a file (four clusters) and of directories (four sectors):
// fs_read_4k / fs_read_512 and fs_write_4k / fs_write_512, which differ only in
// the size of a block. Addresses are those of a block's first sector.
module BlockCache {
  import opened Clock
  import opened CacheView

  class Cache {
    const slots: array<Slot>
    const base: nat
    const unit: nat
    var head: nat
    var disk: Disk

    ghost predicate Valid()
      reads this, slots
    {
      head < slots.Length && Coherent(slots[..], disk, unit)
    }

    ghost function Seen(): Disk
      reads this, slots
    {
      View(slots[..], disk)
    }

    // The buffers of a freshly opened file.
    constructor (n: nat, base: nat, unit: nat, disk: Disk)
      requires n > 0 && DiskFits(disk, unit)
      ensures Valid() && fresh(slots) && Seen() == disk && this.disk == disk
      ensures slots.Length == n && this.base == base && this.unit == unit
    {
      slots := new Slot[n](_ => Slot(seq(unit, _ => 0), EMPTY, false, false));
      this.base, this.unit, this.disk, head := base, unit, disk, 0;
      new;
      AllCleanDiskIsView(slots[..], disk, unit);
    }

    // fs_write_4k: a clean or empty slot is not written.
    method WriteSlot(k: nat)
      requires Valid() && k < slots.Length
      modifies this`disk, slots
      ensures Valid() && Seen() == old(Seen()) && disk.Keys == old(disk.Keys)
      ensures slots[..] == old(slots[..])[k := old(slots[k]).(dirty := false)]
      ensures !old(slots[k].dirty) ==> disk == old(disk)
      ensures forall a :: a in disk && a != slots[k].cur ==> disk[a] == old(disk)[a]
    {
      assert SlotFits(slots[..][k], disk, unit);
      if slots[k].cur != EMPTY && slots[k].dirty {
        WriteBackFits(slots[..], disk, unit, k);
        WriteBackView(slots[..], disk, unit, k);
        disk := disk[slots[k].cur := slots[k].buf];
        slots[k] := slots[k].(dirty := false);
      } else {
        assert slots[..] == old(slots[..])[k := old(slots[k]).(dirty := false)];
      }
    }

    // The clock gives up a slot and its block goes to the disk if it is dirty.
    method Evict() returns (k: nat)
      requires Valid()
      modifies this, slots
      ensures Valid() && Seen() == old(Seen()) && disk.Keys == old(disk.Keys)
      ensures k < slots.Length && !slots[k].dirty
      ensures forall i :: 0 <= i < slots.Length ==> slots[..][i].cur == old(slots[..])[i].cur
      ensures (exists i :: 0 <= i < slots.Length && !old(slots[..])[i].dirty) ==> disk == old(disk)
      ensures head == Next(k, slots.Length) && Replaced(old(slots[..]), old(head), k, slots[k], slots[..])
    {
      k, head := GiveUp(slots, head, disk, unit);
      ghost var s := slots[..];
      WriteSlot(k);
      assert slots[..] == s[k := slots[k]];
      assert forall i :: 0 <= i < slots.Length ==> slots[..][i].cur == s[i].cur;
    }

    // fs_read_4k: whatever is replaced, nothing seen changes; the disk is written
    // only when every slot is dirty.
    method Read(sector: nat) returns (k: nat)
      requires Valid() && sector + base in disk
      modifies this, slots
      ensures Valid() && Seen() == old(Seen()) && disk.Keys == old(disk.Keys)
      ensures k < slots.Length && slots[k].cur == sector + base && slots[k].buf == Seen()[sector + base]
      ensures (exists i :: 0 <= i < slots.Length && !old(slots[..])[i].dirty) ==> disk == old(disk)
      ensures Holds(old(slots[..]), sector + base) ==> Marked(old(slots[..]), old(head), k, slots[..], head)
      ensures !Holds(old(slots[..]), sector + base) ==> Loaded(old(slots[..]), old(head), k, slots[..], head)
    {
      var a := sector + base;
      ghost var s := slots[..];
      k := Search(slots, a);
      if k == slots.Length {
        assert !Holds(s, a);
        k := Fetch(a);
      } else {
        assert s[k].cur == a;
        Touch(k, a);
      }
      SeenInSlot(slots[..], k, disk);
    }

    // A block that is in a slot is marked referenced there.
    method Touch(k: nat, a: nat)
      requires Valid() && a in disk && k < slots.Length && slots[k].cur == a
      modifies slots
      ensures Valid() && Seen() == old(Seen()) && slots[k].cur == a
      ensures Marked(old(slots[..]), head, k, slots[..], head)
    {
      ghost var s := slots[..];
      assert s[k].cur == a;
      slots[k] := slots[k].(referenced := true);
      BitsDoNotShow(s, slots[..], disk, unit);
    }

    // A block that is in no slot takes the place of one that is given up.
    method Fetch(a: nat) returns (k: nat)
      requires Valid() && a in disk && Find(slots[..], a) == slots.Length
      modifies this, slots
      ensures Valid() && Seen() == old(Seen()) && disk.Keys == old(disk.Keys)
      ensures k < slots.Length && slots[k].cur == a
      ensures (exists i :: 0 <= i < slots.Length && !old(slots[..])[i].dirty) ==> disk == old(disk)
      ensures Loaded(old(slots[..]), old(head), k, slots[..], head)
    {
      assert forall i :: 0 <= i < |slots[..]| ==> slots[..][i].cur != a;
      k := Evict();
      LoadFits(slots[..], disk, unit, k, a);
      LoadView(slots[..], disk, unit, k, a);
      ghost var s := slots[..];
      slots[k] := Slot(disk[a], a, true, false);
      SeenInSlot(slots[..], k, disk);
      ReplacedAgain(old(slots[..]), old(head), k, s[k], s, slots[k], slots[..]);
    }

    // What fs_write does to the slot it has read: the state becomes 3.
    method Update(k: nat, b: Blk)
      requires Valid() && k < slots.Length && slots[k].cur != EMPTY && |b| == unit
      modifies slots
      ensures Valid() && Seen() == old(Seen())[slots[k].cur := b]
      ensures slots[..] == old(slots[..])[k := Slot(b, old(slots[k].cur), true, true)]
    {
      PutFits(slots[..], disk, unit, k, b);
      PutView(slots[..], disk, unit, k, b);
      slots[k] := Slot(b, slots[k].cur, true, true);
    }

    // The loop of fs_close over the slots: afterwards the disk is what was seen.
    method Flush()
      requires Valid()
      modifies this`disk, slots
      ensures Valid() && disk == Seen() == old(Seen())
    {
      var i := 0;
      while i < slots.Length
        invariant i <= slots.Length && Valid() && Seen() == old(Seen())
        invariant forall j :: 0 <= j < i ==> !slots[..][j].dirty
      {
        WriteSlot(i);
        i := i + 1;
      }
      AllCleanDiskIsView(slots[..], disk, unit);
    }
  }
}
