// generic_file_read and generic_file_write over the mapped blocks of one file.
module GenericFile {
  import opened Bytes
  import opened Options
  import opened Words
  import opened ChainBytes
  import opened PageCache

  // Byte lo of page n is byte pos of the file; lo may be the end of the page.
  ghost predicate OnPage(n: nat, lo: nat, unit: nat, pos: nat) {
    lo <= unit && n * unit + lo == pos
  }

  // The pages of a file, and the byte a range ends before.
  lemma {:induction false} LastPage(pos: nat, n: nat, unit: nat, blocks: nat, sp: nat, ep: nat)
    requires unit > 0 && pos + n <= blocks * unit && sp == Div(pos, unit) && ep == Div(pos + n, unit)
    ensures sp <= ep <= blocks && (ep == blocks ==> Mod(pos + n, unit) == 0)
    ensures OnPage(sp, Mod(pos, unit), unit, pos) && OnPage(ep, Mod(pos + n, unit), unit, pos + n)
    ensures sp == ep ==> Mod(pos, unit) <= Mod(pos + n, unit)
  {
    if ep < sp {
      Room(ep, sp, unit);
      assert false;
    }
    if blocks < ep {
      Room(blocks, ep, unit);
      assert false;
    }
  }

  // A page that is not the last is used to its end ...
  lemma WholePage(p: nat, lo: nat, ep: nat, end: nat, unit: nat, at: nat, last: nat, next: nat, at': nat)
    requires p < ep && OnPage(p, lo, unit, at) && OnPage(ep, end, unit, last) && next == p + 1
    requires at' == at + (unit - lo)
    ensures OnPage(next, 0, unit, at') && at' <= last
  {
    assert (p + 1) * unit == p * unit + unit;
    Room(p, ep, unit);
  }

  // ... and the last one up to the end of the range.
  lemma PartPage(p: nat, lo: nat, end: nat, unit: nat, p0: nat, cur: nat, n: nat)
    requires OnPage(p, lo, unit, p0 + cur) && OnPage(p, end, unit, p0 + n) && cur <= n
    ensures lo <= end && n == cur + (end - lo)
  {}

  // The file's blocks are its own, distinct, and on the disk.
  ghost predicate BlocksOk(cache: PageCache.Cache, host: nat, unit: nat, blocks: seq<nat>, places: seq<int>)
    reads cache
  {
    && |places| == |blocks|
    && (forall i :: 0 <= i < |blocks| ==>
          places[i] == blocks[i] && places[i] in cache.owner && cache.owner[places[i]] == host)
    && BlocksFit(cache.disk, places, unit) && AllApart(places)
  }

  class File {
    const cache: PageCache.Cache
    const host: nat
    const unit: nat
    const blocks: seq<nat>
    ghost const places: seq<int>
    var size: nat
    var pos: nat

    // The inode of a file with all its blocks on the disk, opened at its first byte.
    constructor (cache: PageCache.Cache, host: nat, unit: nat, blocks: seq<nat>, size: nat, ghost places: seq<int>)
      requires cache.Valid() && unit > 0 && size <= |blocks| * unit && BlocksOk(cache, host, unit, blocks, places)
      ensures Valid() && pos == 0 && this.size == size && Content() == Flat(cache.disk, places, unit)
      ensures this.cache == cache && this.host == host && this.unit == unit && this.blocks == blocks
      ensures this.places == places
    {
      this.cache, this.host, this.unit, this.blocks, this.size, this.places := cache, host, unit, blocks, size, places;
      pos := 0;
    }

    ghost predicate Valid()
      reads this, cache, cache.buckets
    {
      cache.Valid() && unit > 0 && size <= |blocks| * unit && BlocksOk(cache, host, unit, blocks, places)
    }

    // The bytes of the mapped blocks as they are on the disk.
    ghost function Content(): seq<byte>
      requires Valid()
      reads this, cache, cache.buckets
    {
      Flat(cache.disk, places, unit)
    }

    // pcache_get_page; bmap fails behind the mapped blocks.
    method GetPage(n: nat) returns (page: Option<Key>)
      requires Valid()
      modifies cache`lru, cache`pages, cache`size, cache.buckets
      ensures Valid() && (page.None? <==> n >= |blocks|)
      ensures page.Some? ==> page.value.location == places[n] && page.value in cache.pages
      ensures page.Some? ==> cache.pages[page.value] == cache.disk[places[n]]
    {
      if n >= |blocks| {
        return None;
      }
      var k := Key(host, blocks[n]);
      cache.LookUp(k);
      page := Some(k);
    }

    // One page of generic_file_read, unless bmap knows no such page.
    method ReadPage(n: nat, lo: nat, hi: nat, buf: array<byte>, cur: nat, end: nat,
                    ghost s: seq<byte>, ghost orig: seq<byte>, ghost p0: nat) returns (ok: bool)
      requires Valid() && lo <= hi <= unit && OnPage(n, lo, unit, p0 + cur)
      requires s == Content() && Filled(s, buf[..], orig, p0, cur) && end == cur + (hi - lo) <= |orig|
      modifies buf, cache`lru, cache`pages, cache`size, cache.buckets
      ensures Valid() && Content() == s && ok == (n < |blocks|)
      ensures Filled(s, buf[..], orig, p0, if ok then end else cur)
    {
      var page := GetPage(n);
      if page.None? {
        return false;
      }
      var data := cache.pages[page.value];
      ghost var was := buf[..];
      CopyOut(data, lo, hi, buf, cur, end);
      FillOn(cache.disk, places, unit, n, lo, hi, s, was, buf[..], orig, p0, cur, end);
      ok := true;
    }

    // generic_file_read from within the file: what is left of it at most, as a slice.
    method Read(buf: array<byte>, count: u32) returns (cur: nat)
      requires Valid() && pos <= size && count <= buf.Length && pos + count < TWO32
      modifies this`pos, buf, cache`lru, cache`pages, cache`size, cache.buckets
      ensures Valid() && cur == (if old(pos) + count < size then count else size - old(pos)) && pos == old(pos) + cur
      ensures Filled(Content(), buf[..], old(buf[..]), old(pos), cur)
    {
      var n: nat := if pos + count < size then count else size - pos;
      cur := ReadRange(buf, n);
      pos := pos + cur;
    }

    // The page loop of generic_file_read. The last page may lie behind the mapped
    // blocks; nothing of it is wanted then.
    method ReadRange(buf: array<byte>, n: nat) returns (cur: nat)
      requires Valid() && pos + n <= |blocks| * unit && n <= buf.Length
      modifies buf, cache`lru, cache`pages, cache`size, cache.buckets
      ensures Valid() && cur == n && Filled(Content(), buf[..], old(buf[..]), pos, n)
    {
      ghost var s, orig := Content(), buf[..];
      var p0, u := pos, unit;
      var page, ep: nat, lo: nat, end: nat := Div(p0, u), Div(p0 + n, u), Mod(p0, u), Mod(p0 + n, u);
      LastPage(p0, n, u, |blocks|, page, ep);
      cur := 0;
      FilledNone(s, orig, p0);
      while page < ep
        invariant Valid() && page <= ep && OnPage(page, lo, u, p0 + cur) && cur <= n && Content() == s
        invariant Filled(s, buf[..], orig, p0, cur)
      {
        var next, done := page + 1, cur + (u - lo);
        WholePage(page, lo, ep, end, u, p0 + cur, p0 + n, next, p0 + done);
        var _ := ReadPage(page, lo, u, buf, cur, done, s, orig, p0);
        page, lo, cur := next, 0, done;
      }
      PartPage(page, lo, end, u, p0, cur, n);
      var ok := ReadPage(page, lo, end, buf, cur, n, s, orig, p0);
      if ok {
        cur := cur + (end - lo);
      }
    }

    // One page of generic_file_write: changed in the cache and on the disk.
    method WritePage(n: nat, lo: nat, hi: nat, buf: array<byte>, cur: nat, end: nat,
                     ghost s: seq<byte>, ghost d: seq<byte>, ghost p0: nat) returns (ok: bool)
      requires Valid() && lo <= hi <= unit && OnPage(n, lo, unit, p0 + cur) && (n < |blocks| ==> lo < unit)
      requires d == buf[..] && end == cur + (hi - lo) <= |d| && p0 + end <= |s| && Written(s, Content(), d, p0, cur)
      modifies cache`lru, cache`pages, cache`size, cache`disk, cache.buckets
      ensures Valid() && ok == (n < |blocks|) && Written(s, Content(), d, p0, if ok then end else cur)
    {
      var page := GetPage(n);
      if page.None? {
        return false;
      }
      var data := CopyIn(cache.pages[page.value], lo, hi, buf, cur, end);
      ghost var disk := cache.disk;
      cache.WriteThrough(page.value, data);
      assert d[cur..end] == buf[cur..end];
      PutOn(disk, cache.disk, places, unit, n, lo, s, d, p0, cur, end);
      ok := true;
    }

    // The page loop of generic_file_write.
    method WriteRange(buf: array<byte>, n: nat, ghost d: seq<byte>) returns (cur: nat)
      requires Valid() && pos + n <= |blocks| * unit && d == buf[..] && n <= |d|
      modifies cache`lru, cache`pages, cache`size, cache`disk, cache.buckets
      ensures Valid() && cur == n && Written(old(Content()), Content(), d, pos, n)
    {
      ghost var s := Content();
      var p0, u := pos, unit;
      var page, ep: nat, lo: nat, end: nat := Div(p0, u), Div(p0 + n, u), Mod(p0, u), Mod(p0 + n, u);
      LastPage(p0, n, u, |blocks|, page, ep);
      cur := 0;
      WrittenNone(s, d, p0);
      while page < ep
        invariant Valid() && page <= ep && OnPage(page, lo, u, p0 + cur) && lo < u && cur <= n && d == buf[..]
        invariant Written(s, Content(), d, p0, cur)
      {
        var next, done := page + 1, cur + (u - lo);
        WholePage(page, lo, ep, end, u, p0 + cur, p0 + n, next, p0 + done);
        var _ := WritePage(page, lo, u, buf, cur, done, s, d, p0);
        page, lo, cur := next, 0, done;
      }
      PartPage(page, lo, end, u, p0, cur, n);
      var ok := WritePage(page, lo, end, buf, cur, n, s, d, p0);
      if ok {
        cur := cur + (end - lo);
      }
    }

    // generic_file_write inside the mapped blocks: a splice, on the disk as in the
    // cache; the file grows to the end of the write.
    method Write(buf: array<byte>, count: u32) returns (cur: nat)
      requires Valid() && count <= buf.Length && pos + count < TWO32 && pos + count <= |blocks| * unit
      modifies this`pos, this`size, cache`lru, cache`pages, cache`size, cache`disk, cache.buckets
      ensures Valid() && cur == count && pos == old(pos) + count
      ensures size == (if old(pos) + count > old(size) then old(pos) + count else old(size))
      ensures Written(old(Content()), Content(), buf[..], old(pos), count)
    {
      var p := pos;
      cur := WriteRange(buf, count, buf[..]);
      pos := p + cur;
      if p + count > size {
        size := p + count;
      }
    }
  }
}
