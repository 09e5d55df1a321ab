// An open file: a chain of clusters followed through the FAT, read and written
// through the file's own four-slot cache.
module FatFile {
  import opened Bytes
  import opened Words
  import opened Clock
  import opened CacheView
  import opened BlockCache
  import opened FatBytes
  import opened FatTable
  import opened ChainBytes

  // Cluster i of the chain starts at sector places[i].
  ghost predicate PlaceAt(chain: seq<u32>, places: seq<int>, i: nat, log2: nat, firstData: u32, base: nat) {
    i < |chain| == |places| && places[i] == DataClusterToSector(chain[i], log2, firstData) + base
  }

  // Entry i of the chain leads to entry i + 1.
  ghost predicate LinkAt(chain: seq<u32>, i: nat, table: Disk, first: nat, n: nat) {
    && i + 1 < |chain| && TableFits(table, first, n) && chain[i] < 128 * n
    && Entry(table, first, n, chain[i]) % LOW28 == chain[i + 1]
  }

  // The chain starts at the file's first cluster and never comes back to a cluster.
  ghost predicate Chain(chain: seq<u32>, start: u32, clusters: nat) {
    && (chain != [] ==> chain[0] == start) && (chain == [] <==> start == 0)
    && (forall i :: 0 <= i < |chain| ==> 2 <= chain[i] <= clusters + 1)
    && (forall i, j :: 0 <= i < j < |chain| ==> chain[i] != chain[j])
  }

  ghost predicate Placed(chain: seq<u32>, places: seq<int>, log2: nat, firstData: u32, base: nat) {
    && |places| == |chain|
    && forall i: nat {:trigger PlaceAt(chain, places, i, log2, firstData, base)} ::
      i < |chain| ==> PlaceAt(chain, places, i, log2, firstData, base)
  }

  ghost predicate Follows(chain: seq<u32>, table: Disk, first: nat, n: nat) {
    forall i: nat {:trigger LinkAt(chain, i, table, first, n)} ::
      i + 1 < |chain| ==> LinkAt(chain, i, table, first, n)
  }

  lemma {:induction false} PlacesApart(chain: seq<u32>, places: seq<int>, start: u32, log2: nat,
                                       firstData: u32, base: nat, clusters: nat)
    requires firstData + clusters * Pow2(log2) < TWO32 && Chain(chain, start, clusters)
    requires Placed(chain, places, log2, firstData, base)
    ensures AllApart(places)
  {
    forall i, j | 0 <= i < j < |chain|
      ensures places[i] != places[j] {
      assert PlaceAt(chain, places, i, log2, firstData, base) && PlaceAt(chain, places, j, log2, firstData, base);
      ClustersApart(chain[i], chain[j], log2, firstData, clusters);
      ClustersApart(chain[j], chain[i], log2, firstData, clusters);
    }
  }

  // A volume: clusters of a power of two sectors, entries for all of them.
  ghost predicate VolumeOk(data: Cache, fat: Fat, sectorsPerCluster: u32, firstData: u32, clusters: u32, log2: nat)
    reads data, fat
  {
    && data.slots != fat.slots
    && sectorsPerCluster == Pow2(log2) && data.unit == 512 * sectorsPerCluster < TWO32
    && firstData + clusters * Pow2(log2) < TWO32 && clusters + 2 <= 128 * fat.perFat
  }

  // A file on it: its clusters follow one another in the table and are on the disk.
  ghost predicate ChainOk(data: Cache, fat: Fat, firstData: u32, clusters: u32, start: u32, log2: nat,
                          chain: seq<u32>, places: seq<int>)
    reads data, data.slots, fat, fat.slots
  {
    && Chain(chain, start, clusters) && Follows(chain, fat.Seen(), fat.first, fat.perFat)
    && Placed(chain, places, log2, firstData, data.base) && BlocksFit(data.Seen(), places, data.unit)
  }

  class File {
    const data: Cache
    const fat: Fat
    const sectorsPerCluster: u32
    const firstData: u32
    const clusters: u32
    var start: u32
    var size: u32
    var loc: u32
    ghost const chain: seq<u32>
    ghost const places: seq<int>
    ghost const log2: nat

    // A directory entry just found, opened at its first byte.
    constructor (data: Cache, fat: Fat, sectorsPerCluster: u32, firstData: u32, clusters: u32, start: u32, size: u32,
                 ghost log2: nat, ghost chain: seq<u32>, ghost places: seq<int>)
      requires data.Valid() && fat.Valid() && VolumeOk(data, fat, sectorsPerCluster, firstData, clusters, log2)
      requires ChainOk(data, fat, firstData, clusters, start, log2, chain, places) && size <= |chain| * data.unit
      ensures Valid() && loc == 0 && this.size == size && Content() == Flat(data.Seen(), places, data.unit)
      ensures this.data == data && this.fat == fat && this.start == start && this.chain == chain
      ensures this.places == places
    {
      this.data, this.fat, this.sectorsPerCluster := data, fat, sectorsPerCluster;
      this.firstData, this.clusters, this.start, this.size := firstData, clusters, start, size;
      this.log2, this.chain, this.places, loc := log2, chain, places, 0;
    }

    ghost predicate Valid()
      reads this, data, data.slots, fat, fat.slots
    {
      && data.Valid() && fat.Valid() && VolumeOk(data, fat, sectorsPerCluster, firstData, clusters, log2)
      && ChainOk(data, fat, firstData, clusters, start, log2, chain, places)
      && loc <= size <= |chain| * data.unit
    }

    // The bytes of the chain, seen through the cache.
    ghost function Content(): seq<byte>
      requires Valid()
      reads this, data, data.slots, fat, fat.slots
    {
      Flat(data.Seen(), places, data.unit)
    }

    // fs_lseek: never past the end of the file.
    method Seek(newLoc: u32)
      requires Valid()
      modifies this`loc
      ensures Valid() && loc == (if newLoc < size then newLoc else size) && Content() == old(Content())
    {
      if newLoc < size {
        loc := newLoc;
      } else {
        loc := size;
      }
    }

    // The entry of cluster i of the file leads to the one after it.
    method NextCluster(i: nat, n: nat, clus: u32) returns (next: u32)
      requires Valid() && n == i + 1 < |chain| && clus == chain[i]
      modifies fat, fat.slots
      ensures Valid() && next == chain[n] && Content() == old(Content())
    {
      assert LinkAt(chain, i, fat.Seen(), fat.first, fat.perFat);
      next := fat.GetEntry(clus);
    }

    // From the first cluster to cluster n of the file.
    method Walk(n: nat) returns (clus: u32)
      requires Valid() && n < |chain|
      modifies fat, fat.slots
      ensures Valid() && clus == chain[n] && Content() == old(Content())
    {
      clus := start;
      for i := 0 to n
        invariant Valid() && clus == chain[i] && Content() == old(Content())
      {
        clus := NextCluster(i, i + 1, clus);
      }
    }

    // fs_dataclus2sec
    method FirstSector(n: nat, clus: u32) returns (sector: u32)
      requires sectorsPerCluster == Pow2(log2) && n < |chain| && clus == chain[n]
      requires Placed(chain, places, log2, firstData, data.base)
      ensures n < |places| && sector + data.base == places[n]
    {
      var k := Wa(sectorsPerCluster);
      WaExact(sectorsPerCluster, k, log2);
      assert PlaceAt(chain, places, n, log2, firstData, data.base);
      sector := DataClusterToSector(clus, k, firstData);
    }

    // Cluster n of the file in a slot of the file's cache.
    method LoadCluster(n: nat, clus: u32) returns (k: nat)
      requires Valid() && n < |chain| && clus == chain[n]
      modifies data, data.slots
      ensures Valid() && data.Seen() == old(data.Seen())
      ensures k < data.slots.Length && data.slots[k].cur == places[n] != EMPTY
      ensures data.slots[k].buf == data.Seen()[places[n]]
    {
      var sector := FirstSector(n, clus);
      k := data.Read(sector);
    }

    // fs_read: what is left of the file at most; the bytes come out of the chain
    // in order, and the chain is as before.
    method Read(buf: array<byte>, count: u32) returns (cc: u32)
      requires Valid() && count <= buf.Length && loc + count < TWO32
      modifies this`loc, buf, data, data.slots, fat, fat.slots
      ensures Valid() && size == old(size) && Content() == old(Content())
      ensures cc == (if old(loc) + count > size then size - old(loc) else count) && loc == old(loc) + cc
      ensures Filled(Content(), buf[..], old(buf[..]), old(loc), cc)
    {
      FilledNone(Content(), buf[..], loc);
      if start == 0 {
        return 0;
      }
      var n := if loc + count > size then size - loc else count;
      if n == 0 {
        return 0;
      }
      ReadChain(buf, n);
      cc := n;
      loc := loc + n;
    }

    // Both calls begin so: where the range lies, and its first cluster.
    method Locate(n: nat) returns (sc: nat, sb: nat, ec: nat, eb: nat, clus: u32)
      requires Valid() && 0 < n && loc + n <= |chain| * data.unit
      modifies fat, fat.slots
      ensures Valid() && Content() == old(Content()) && loc + n <= |Content()|
      ensures sc <= ec < |chain| && clus == chain[sc]
      ensures OnBlock(sc, sb, data.unit, loc) && OnBlock(ec, eb, data.unit, loc + n - 1)
    {
      var bytes: u32 := 512 * sectorsPerCluster;
      assert bytes == data.unit;
      sc, sb, ec, eb := Range(loc, n, bytes, log2, |chain|);
      clus := Walk(sc);
    }

    // One round of the loop of fs_read: bytes sb to hi of cluster sc.
    method ReadPart(buf: array<byte>, sc: nat, clus: u32, sb: nat, hi: nat, cc: nat, end: nat,
                    ghost s: seq<byte>, ghost orig: seq<byte>, ghost p0: nat)
      requires Valid() && sc < |chain| && clus == chain[sc] && sb <= hi <= data.unit
      requires OnBlock(sc, sb, data.unit, p0 + cc)
      requires Content() == s && Filled(s, buf[..], orig, p0, cc) && end == cc + (hi - sb) <= |orig|
      modifies buf, data, data.slots
      ensures Valid() && Content() == s && Filled(s, buf[..], orig, p0, end)
    {
      var k := LoadCluster(sc, clus);
      ghost var was := buf[..];
      CopyOut(data.slots[k].buf, sb, hi, buf, cc, end);
      FillOn(data.Seen(), places, data.unit, sc, sb, hi, s, was, buf[..], orig, p0, cc, end);
    }

    // A round that is not the last: the rest of the cluster, and the next one looked up.
    method ReadOn(buf: array<byte>, sc: nat, clus: u32, sb: nat, cc: nat, end: nat, next: nat,
                  ghost s: seq<byte>, ghost orig: seq<byte>, ghost p0: nat) returns (following: u32)
      requires Valid() && next == sc + 1 < |chain| && clus == chain[sc] && OnBlock(sc, sb, data.unit, p0 + cc)
      requires Content() == s && Filled(s, buf[..], orig, p0, cc) && end == cc + (data.unit - sb) <= |orig|
      modifies buf, data, data.slots, fat, fat.slots
      ensures Valid() && Content() == s && Filled(s, buf[..], orig, p0, end) && following == chain[next]
    {
      ReadPart(buf, sc, clus, sb, data.unit, cc, end, s, orig, p0);
      following := NextCluster(sc, next, clus);
    }

    // The cluster loop of fs_read.
    method ReadChain(buf: array<byte>, n: nat)
      requires Valid() && 0 < n <= buf.Length && loc + n <= |chain| * data.unit
      modifies buf, data, data.slots, fat, fat.slots
      ensures Valid() && Content() == old(Content()) && Filled(Content(), buf[..], old(buf[..]), loc, n)
    {
      ghost var s, orig := Content(), buf[..];
      var cl, from := data.unit, loc;
      var sc: nat, sb: nat, ec: nat, eb: nat, clus: u32 := Locate(n);
      var cc: nat := 0;
      FilledNone(s, orig, from);
      while sc < ec
        invariant Valid() && sc <= ec < |chain| && clus == chain[sc] && Content() == s
        invariant OnBlock(sc, sb, cl, from + cc) && cc < n
        invariant Filled(s, buf[..], orig, from, cc)
      {
        var next, end := sc + 1, cc + (cl - sb);
        NextBlock(sc, sb, ec, eb, cl, from + cc, from + n - 1, next, from + end);
        clus := ReadOn(buf, sc, clus, sb, cc, end, next, s, orig, from);
        sc, sb, cc := next, 0, end;
      }
      LastBlock(sc, sb, eb, cl, from + cc, from + n - 1);
      ReadPart(buf, sc, clus, sb, eb + 1, cc, n, s, orig, from);
    }

    // One round of the loop of fs_write: d[cc..end] goes to cluster sc from byte sb on.
    method WritePart(buf: array<byte>, sc: nat, clus: u32, sb: nat, hi: nat, cc: nat, end: nat,
                     ghost s: seq<byte>, ghost d: seq<byte>, ghost p0: nat)
      requires Valid() && sc < |chain| && clus == chain[sc] && sb <= hi <= data.unit
      requires OnBlock(sc, sb, data.unit, p0 + cc)
      requires d == buf[..] && end == cc + (hi - sb) <= |d| && p0 + end <= |s| && Written(s, Content(), d, p0, cc)
      modifies data, data.slots
      ensures Valid() && Written(s, Content(), d, p0, end)
    {
      var k := LoadCluster(sc, clus);
      ghost var view := data.Seen();
      var b := CopyIn(data.slots[k].buf, sb, hi, buf, cc, end);
      data.Update(k, b);
      assert d[cc..end] == buf[cc..end];
      PlacesApart(chain, places, start, log2, firstData, data.base, clusters);
      PutOn(view, data.Seen(), places, data.unit, sc, sb, s, d, p0, cc, end);
    }

    // A round that is not the last: the cluster is filled up and the next one looked up.
    method WriteOn(buf: array<byte>, sc: nat, clus: u32, sb: nat, cc: nat, end: nat, next: nat,
                   ghost s: seq<byte>, ghost d: seq<byte>, ghost p0: nat) returns (following: u32)
      requires Valid() && next == sc + 1 < |chain| && clus == chain[sc] && OnBlock(sc, sb, data.unit, p0 + cc)
      requires d == buf[..] && end == cc + (data.unit - sb) <= |d| && p0 + end <= |s|
      requires Written(s, Content(), d, p0, cc)
      modifies data, data.slots, fat, fat.slots
      ensures Valid() && Written(s, Content(), d, p0, end) && following == chain[next]
    {
      WritePart(buf, sc, clus, sb, data.unit, cc, end, s, d, p0);
      following := NextCluster(sc, next, clus);
    }

    // The cluster loop of fs_write, inside the chain.
    method WriteChain(buf: array<byte>, n: nat, ghost d: seq<byte>)
      requires Valid() && d == buf[..] && 0 < n <= |d| && loc + n <= |chain| * data.unit
      modifies data, data.slots, fat, fat.slots
      ensures Valid() && Written(old(Content()), Content(), d, loc, n)
    {
      ghost var s := Content();
      var cl, from := data.unit, loc;
      var sc: nat, sb: nat, ec: nat, eb: nat, clus: u32 := Locate(n);
      var cc: nat := 0;
      WrittenNone(s, d, from);
      while sc < ec
        invariant Valid() && sc <= ec < |chain| && clus == chain[sc] && d == buf[..]
        invariant OnBlock(sc, sb, cl, from + cc) && cc < n && from + n <= |s|
        invariant Written(s, Content(), d, from, cc)
      {
        var next, end := sc + 1, cc + (cl - sb);
        NextBlock(sc, sb, ec, eb, cl, from + cc, from + n - 1, next, from + end);
        clus := WriteOn(buf, sc, clus, sb, cc, end, next, s, d, from);
        sc, sb, cc := next, 0, end;
      }
      LastBlock(sc, sb, eb, cl, from + cc, from + n - 1);
      WritePart(buf, sc, clus, sb, eb + 1, cc, n, s, d, from);
    }

    // fs_write inside the chain: a splice of its bytes; the file grows to the end
    // of the write.
    method Write(buf: array<byte>, count: u32) returns (cc: u32)
      requires Valid() && count <= buf.Length && loc + count < TWO32 && loc + count <= |chain| * data.unit
      modifies this`loc, this`size, data, data.slots, fat, fat.slots
      ensures Valid() && cc == count && loc == old(loc) + count
      ensures size == (if old(loc) + count > old(size) then old(loc) + count else old(size))
      ensures Written(old(Content()), Content(), buf[..], old(loc), count)
    {
      if count == 0 {
        WrittenNone(Content(), buf[..], loc);
        return 0;
      }
      WriteChain(buf, count, buf[..]);
      if loc + count > size {
        size := loc + count;
      }
      loc := loc + count;
      cc := count;
    }
  }

  // Written, sought back to, and read again: the same bytes, whatever the caches
  // have replaced in between.
  method WriteSeekRead(f: File, buf: array<byte>, out: array<byte>, count: u32)
    requires f.Valid() && count <= buf.Length && count <= out.Length && buf != out
    requires f.loc + count < TWO32 && f.loc + count <= |f.chain| * f.data.unit
    modifies f`loc, f`size, out, f.data, f.data.slots, f.fat, f.fat.slots
    ensures out[..count] == buf[..count]
  {
    var at := f.loc;
    ghost var s := f.Content();
    var n := f.Write(buf, count);
    f.Seek(at);
    n := f.Read(out, count);
    SpliceReadBack(s, at, buf[..count]);
  }

  // The shift by the cluster size in bytes divides by just that.
  lemma ShiftIsUnit(bytes: nat, log2: nat, shift: nat)
    requires bytes == 512 * Pow2(log2) && Pow2(shift) <= bytes < 2 * Pow2(shift)
    ensures Pow2(shift) == bytes
  {
    NinePow2(log2);
    WaExact(bytes, shift, log2 + 9);
  }

  lemma NinePow2(k: nat)
    ensures Pow2(k + 9) == 512 * Pow2(k)
  {
    assert Pow2(k + 3) == 8 * Pow2(k) by { assert Pow2(k + 2) == 2 * Pow2(k + 1); }
    assert Pow2(k + 6) == 8 * Pow2(k + 3) by { assert Pow2(k + 5) == 2 * Pow2(k + 4); }
    assert Pow2(k + 9) == 8 * Pow2(k + 6) by { assert Pow2(k + 8) == 2 * Pow2(k + 7); }
  }

  // First and last cluster and byte of a range: shifts and masks by the cluster
  // size in bytes.
  method Range(loc: nat, n: nat, bytes: u32, ghost log2: nat, ghost blocks: nat)
    returns (sc: nat, sb: nat, ec: nat, eb: nat)
    requires bytes == 512 * Pow2(log2) && 0 < n && loc + n <= blocks * bytes
    ensures sc <= ec < blocks
    ensures OnBlock(sc, sb, bytes, loc) && OnBlock(ec, eb, bytes, loc + n - 1)
  {
    var shift := Wa(bytes);
    ShiftIsUnit(bytes, log2, shift);
    RangeBlocks(loc, n, bytes, blocks);
    sc, sb := Div(loc, Pow2(shift)), Mod(loc, bytes);
    ec, eb := Div(loc + n - 1, Pow2(shift)), Mod(loc + n - 1, bytes);
  }
}
