// The page cache: hash buckets and one list in order of use. A page is known by
// the file that owns it and its place on the disk.
module PageCache {
  import opened Clock
  import opened CacheView
  import opened Lists
  import opened LruSpec

  datatype Key = Key(host: nat, location: nat)

  // A page stands once in the list and once in its bucket, and nowhere else.
  ghost predicate Bucket(b: seq<Key>, h: nat, n: nat, lru: seq<Key>)
    requires n > 0
  {
    NoDups(b) && forall k :: k in b <==> k in lru && k.location % n == h
  }

  ghost predicate Hashed(buckets: seq<seq<Key>>, lru: seq<Key>) {
    && |buckets| > 0
    && forall h {:trigger Bucket(buckets[h], h, |buckets|, lru)} ::
         0 <= h < |buckets| ==> Bucket(buckets[h], h, |buckets|, lru)
  }

  // What is cached is what is on the disk, and belongs to the file that asks for it.
  ghost predicate Synced(pages: map<Key, Blk>, disk: Disk, owner: map<int, nat>) {
    forall k :: k in pages ==>
      k.location in disk && pages[k] == disk[k.location] && k.location in owner && owner[k.location] == k.host
  }

  lemma Dropped(buckets: seq<seq<Key>>, lru: seq<Key>, k: Key, h: nat, buckets': seq<seq<Key>>, lru': seq<Key>)
    requires Hashed(buckets, lru) && NoDups(lru) && k in lru && h < |buckets| && h == k.location % |buckets|
    requires lru' == Without(lru, k) && buckets' == buckets[h := Without(buckets[h], k)]
    ensures Hashed(buckets', lru') && NoDups(lru') && |lru'| == |lru| - 1 && k !in lru'
  {
    WithoutFacts(lru, k);
    assert Bucket(buckets[h], h, |buckets|, lru);
    WithoutFacts(buckets[h], k);
    forall g | 0 <= g < |buckets'| ensures Bucket(buckets'[g], g, |buckets'|, lru') {
      assert Bucket(buckets[g], g, |buckets|, lru);
    }
  }

  lemma Added(buckets: seq<seq<Key>>, lru: seq<Key>, k: Key, h: nat, buckets': seq<seq<Key>>, lru': seq<Key>)
    requires Hashed(buckets, lru) && NoDups(lru) && k !in lru && h < |buckets| && h == k.location % |buckets|
    requires lru' == [k] + lru && buckets' == buckets[h := [k] + buckets[h]]
    ensures Hashed(buckets', lru') && NoDups(lru')
  {
    assert Bucket(buckets[h], h, |buckets|, lru);
    assert lru'[1..] == lru && ([k] + buckets[h])[1..] == buckets[h];
    forall g | 0 <= g < |buckets'| ensures Bucket(buckets'[g], g, |buckets'|, lru') {
      assert Bucket(buckets[g], g, |buckets|, lru);
    }
  }

  class Cache {
    const buckets: array<seq<Key>>
    const capacity: nat
    const owner: map<int, nat>
    var size: nat
    var lru: seq<Key>
    var pages: map<Key, Blk>
    var disk: Disk

    ghost predicate Shape()
      reads this, buckets
    {
      && Hashed(buckets[..], lru) && NoDups(lru) && size == |lru|
      && forall k :: k in lru <==> k in pages
    }

    ghost predicate Valid()
      reads this, buckets
    {
      Shape() && 0 < capacity && size <= capacity && Synced(pages, disk, owner)
    }

    // cache_init
    constructor (capacity: nat, tableSize: nat, disk: Disk, owner: map<int, nat>)
      requires capacity > 0 && tableSize > 0
      ensures Valid() && lru == [] && this.disk == disk && this.owner == owner && this.capacity == capacity
      ensures fresh(buckets)
    {
      buckets := new seq<Key>[tableSize](_ => []);
      this.capacity, this.owner, this.disk := capacity, owner, disk;
      size, lru, pages := 0, [], map[];
    }

    // The walk of pcache_look_up over one bucket.
    method Find(k: Key) returns (found: bool)
      requires Shape()
      ensures found <==> k in lru
    {
      var h := k.location % buckets.Length;
      assert Bucket(buckets[..][h], h, buckets.Length, lru);
      var b := buckets[h];
      found := false;
      for i := 0 to |b|
        invariant k !in b[..i]
      {
        if b[i] == k {
          return true;
        }
      }
    }

    method Unlink(k: Key)
      requires Shape() && k in lru
      modifies this`lru, buckets
      ensures Hashed(buckets[..], lru) && NoDups(lru) && lru == Without(old(lru), k) && k !in lru
      ensures |lru| == |old(lru)| - 1
    {
      var h := k.location % buckets.Length;
      ghost var bs, l := buckets[..], lru;
      buckets[h] := Without(buckets[h], k);
      lru := Without(lru, k);
      Dropped(bs, l, k, h, buckets[..], lru);
    }

    method Link(k: Key)
      requires Hashed(buckets[..], lru) && NoDups(lru) && k !in lru
      modifies this`lru, buckets
      ensures Hashed(buckets[..], lru) && NoDups(lru) && lru == [k] + old(lru)
    {
      var h := k.location % buckets.Length;
      ghost var bs, l := buckets[..], lru;
      buckets[h] := [k] + buckets[h];
      lru := [k] + lru;
      Added(bs, l, k, h, buckets[..], lru);
    }

    // pcache_put_LRU: the last page of the list goes.
    method PutLRU()
      requires Valid() && size > 0
      modifies this`lru, this`pages, this`size, buckets
      ensures Valid() && lru == old(lru)[..|old(lru)| - 1] && size == old(size) - 1
    {
      var k := lru[|lru| - 1];
      WithoutLast(lru);
      WithoutFacts(lru, k);
      Unlink(k);
      pages := pages - {k};
      size := size - 1;
    }

    // pcache_add
    method Add(k: Key, data: Blk)
      requires Valid() && k !in lru && k.location in disk && data == disk[k.location]
      requires k.location in owner && owner[k.location] == k.host
      modifies this`lru, this`pages, this`size, buckets
      ensures Valid() && lru == Touched(old(lru), k, capacity)
    {
      if size == capacity {
        PutLRU();
      }
      Link(k);
      pages := pages[k := data];
      size := size + 1;
    }

    // pcache_look_up: the page asked for is now the latest used; a missing one is
    // read from the disk.
    method LookUp(k: Key)
      requires Valid() && k.location in disk && k.location in owner && owner[k.location] == k.host
      modifies this`lru, this`pages, this`size, buckets
      ensures Valid() && lru == Touched(old(lru), k, capacity)
      ensures k in pages && pages[k] == disk[k.location]
    {
      var found := Find(k);
      if found {
        WithoutFacts(lru, k);
        Unlink(k);
        Link(k);
      } else {
        Add(k, disk[k.location]);
      }
    }

    // A change of a cached page, written through to the disk at once.
    method WriteThrough(k: Key, data: Blk)
      requires Valid() && k in pages
      modifies this`pages, this`disk
      ensures Valid() && disk == old(disk)[k.location := data] && pages.Keys == old(pages).Keys
    {
      pages := pages[k := data];
      disk := disk[k.location := data];
    }
  }
}
