// The write-back buffers of the FAT file system: slots holding a block of the
// disk each, replaced by a two-sweep clock.
module Clock {
  import opened Words

  type Blk = seq<byte>

  const EMPTY: int := 0xffff_ffff

  // The state word: bit 0 referenced, bit 1 dirty.
  datatype Slot = Slot(buf: Blk, cur: int, referenced: bool, dirty: bool)

  function Unref(s: Slot): Slot {
    s.(referenced := false)
  }

  function Next(h: nat, n: nat): nat
    requires n > 0
  {
    if h + 1 >= n then 0 else h + 1
  }

  // How far the clock hand travels from head to slot i.
  function Dist(head: nat, i: nat, n: nat): int {
    if i >= head then i - head else i - head + n
  }

  ghost predicate Idle(s: Slot) {
    !s.referenced && !s.dirty
  }

  // ----- the two-sweep choice, without the sweeps -----

  ghost predicate NearestIdle(s: seq<Slot>, head: nat, k: nat) {
    && k < |s| && Idle(s[k])
    && forall i :: 0 <= i < |s| && Dist(head, i, |s|) < Dist(head, k, |s|) ==> !Idle(s[i])
  }

  ghost predicate NearestClean(s: seq<Slot>, head: nat, k: nat) {
    && k < |s| && !s[k].dirty
    && forall i :: 0 <= i < |s| && Dist(head, i, |s|) < Dist(head, k, |s|) ==> s[i].dirty
  }

  // Slots nearer to the hand than limit have lost their reference bit.
  ghost predicate SweptUpTo(s: seq<Slot>, head: nat, limit: int, s': seq<Slot>) {
    && |s'| == |s|
    && forall i :: 0 <= i < |s| ==> s'[i] == if Dist(head, i, |s|) < limit then Unref(s[i]) else s[i]
  }

  ghost predicate Chosen(s: seq<Slot>, head: nat, k: nat, s': seq<Slot>) {
    if exists i :: 0 <= i < |s| && Idle(s[i]) then
      NearestIdle(s, head, k) && SweptUpTo(s, head, Dist(head, k, |s|), s')
    else
      && SweptUpTo(s, head, |s|, s')
      && if exists i :: 0 <= i < |s| && !s[i].dirty then NearestClean(s, head, k) else k == head
  }

  // The slot the clock gave up has been filled with x.
  ghost predicate Replaced(s: seq<Slot>, head: nat, k: nat, x: Slot, s': seq<Slot>) {
    exists t :: Chosen(s, head, k, t) && k < |t| && s' == t[k := x]
  }

  lemma ReplacedAgain(s: seq<Slot>, head: nat, k: nat, x: Slot, s': seq<Slot>, y: Slot, s'': seq<Slot>)
    requires Replaced(s, head, k, x, s') && s'' == s'[k := y]
    ensures Replaced(s, head, k, y, s'')
  {
    var t :| Chosen(s, head, k, t) && k < |t| && s' == t[k := x];
    assert s'' == t[k := y];
  }

  ghost predicate Holds(s: seq<Slot>, a: int) {
    exists i :: 0 <= i < |s| && s[i].cur == a
  }

  // Reading a block that is in slot k marks that slot.
  ghost predicate Marked(s: seq<Slot>, head: nat, k: nat, s': seq<Slot>, head': nat) {
    k < |s| && head' == head && s' == s[k := s[k].(referenced := true)]
  }

  // Reading one that is in none loads it where the clock chooses, and the hand moves
  // on behind it.
  ghost predicate Loaded(s: seq<Slot>, head: nat, k: nat, s': seq<Slot>, head': nat) {
    && k < |s| == |s'| && head' == (if k + 1 == |s| then 0 else k + 1)
    && Replaced(s, head, k, s'[k], s') && s'[k].referenced && !s'[k].dirty
  }

  // A dirty slot is given up only when every slot is dirty.
  lemma {:induction false} DirtyVictimOnlyIfAllDirty(s: seq<Slot>, head: nat, k: nat, s': seq<Slot>)
    requires head < |s| && Chosen(s, head, k, s')
    ensures k < |s| && (s[k].dirty <==> forall i :: 0 <= i < |s| ==> s[i].dirty)
  {}

  // The choice is a function of the slots and the hand.
  lemma {:induction false} ChoiceIsUnique(s: seq<Slot>, head: nat, k: nat, s': seq<Slot>, m: nat, s'': seq<Slot>)
    requires head < |s| && Chosen(s, head, k, s') && Chosen(s, head, m, s'')
    ensures k == m && s' == s''
  {
    assert Dist(head, k, |s|) == Dist(head, m, |s|);
  }

  // The first sweep: clears reference bits up to the first idle slot.
  method SweepIdle(slots: array<Slot>, head: nat) returns (found: bool, h: nat)
    requires head < slots.Length
    modifies slots
    ensures found ==> NearestIdle(old(slots[..]), head, h)
    ensures found ==> SweptUpTo(old(slots[..]), head, Dist(head, h, slots.Length), slots[..])
    ensures !found ==> h == head && SweptUpTo(old(slots[..]), head, slots.Length, slots[..])
    ensures !found ==> forall i :: 0 <= i < slots.Length ==> !Idle(old(slots[..])[i])
  {
    var n := slots.Length;
    h := head;
    ghost var s := slots[..];
    var i := 0;
    while i < n
      invariant 0 <= i <= n && h < n && (if i < n then Dist(head, h, n) == i else h == head)
      invariant SweptUpTo(s, head, i, slots[..])
      invariant forall j :: 0 <= j < n && Dist(head, j, n) < i ==> !Idle(s[j])
    {
      assert slots[..][h] == s[h];
      if slots[h].referenced {
        slots[h] := Unref(slots[h]);
      } else if !slots[h].dirty {
        return true, h;
      }
      h := Next(h, n);
      i := i + 1;
    }
    found := false;
  }

  // The second sweep: every reference bit is clear, only dirty bits count.
  method SweepClean(slots: array<Slot>, head: nat) returns (h: nat)
    requires head < slots.Length
    ensures if exists i :: 0 <= i < slots.Length && !slots[..][i].dirty
            then NearestClean(slots[..], head, h) else h == head
  {
    var n := slots.Length;
    h := head;
    var i := 0;
    while i < n
      invariant 0 <= i <= n && h < n && (if i < n then Dist(head, h, n) == i else h == head)
      invariant forall j :: 0 <= j < n && Dist(head, j, n) < i ==> slots[..][j].dirty
    {
      if !slots[h].dirty {
        assert !slots[..][h].dirty;
        return h;
      }
      h := Next(h, n);
      i := i + 1;
    }
  }

  // fs_victim_4k and fs_victim_512
  method Victim(slots: array<Slot>, head: nat) returns (index: nat, head': nat)
    requires head < slots.Length
    modifies slots
    ensures Chosen(old(slots[..]), head, index, slots[..])
    ensures index < slots.Length && head' == Next(index, slots.Length)
  {
    var found: bool;
    found, index := SweepIdle(slots, head);
    if !found {
      index := SweepClean(slots, index);
      assert forall i :: 0 <= i < slots.Length ==> slots[..][i].dirty == old(slots[..])[i].dirty;
    }
    head' := Next(index, slots.Length);
  }
}
