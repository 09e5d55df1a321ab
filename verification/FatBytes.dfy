// The shift count of a power of two, and where clusters and their FAT entries lie.
module FatBytes {
  import opened Arith
  import opened Words

  const LOW28: int := 0x1000_0000

  // val & 0xF0000000 | new & 0x0FFFFFFF
  function KeepHigh4(val: u32, new28: u32): (r: u32)
    ensures r % LOW28 == new28 % LOW28 && r / LOW28 == val / LOW28
  {
    val - val % LOW28 + new28 % LOW28
  }

  // ----- powers of two -----

  function Pow2(k: nat): (r: nat)
    ensures r > 0
  {
    if k == 0 then 1 else 2 * Pow2(k - 1)
  }

  // fs_wa: the position of the highest set bit.
  method Wa(num: u32) returns (i: nat)
    ensures num > 0 ==> Pow2(i) <= num < 2 * Pow2(i)
    ensures num == 0 ==> i == 0
  {
    var n := num;
    i := 0;
    while n > 1
      invariant n * Pow2(i) <= num < (n + 1) * Pow2(i)
      invariant n >= 0 && (num > 0 ==> n > 0) && (num == 0 ==> i == 0)
    {
      WaStep(n, Pow2(i), num);
      n := n / 2;
      i := i + 1;
    }
  }

  lemma WaStep(n: nat, p: nat, num: nat)
    requires n * p <= num < (n + 1) * p
    ensures n / 2 * (2 * p) <= num < (n / 2 + 1) * (2 * p)
  {
    var h := n / 2;
    assert h * (2 * p) == (2 * h) * p && (h + 1) * (2 * p) == (2 * h + 2) * p;
    assert (2 * h) * p <= n * p && (n + 1) * p <= (2 * h + 2) * p;
  }

  lemma {:induction false} Pow2Grows(i: nat, k: nat)
    requires i < k
    ensures 2 * Pow2(i) <= Pow2(k)
  {
    if i < k - 1 {
      Pow2Grows(i, k - 1);
    }
  }

  // On a power of two the loop returns its exponent, and on nothing else.
  lemma {:induction false} WaExact(num: nat, i: nat, k: nat)
    requires Pow2(i) <= num < 2 * Pow2(i)
    ensures num == Pow2(k) ==> i == k
  {
    if num == Pow2(k) && i < k {
      Pow2Grows(i, k);
    } else if num == Pow2(k) && k < i {
      Pow2Grows(k, i);
    }
  }

  // ----- where clusters lie -----

  // fs_dataclus2sec and fs_sec2dataclus, for a cluster of 2^k sectors
  function DataClusterToSector(clus: u32, k: nat, firstData: u32): u32 {
    Add32(Sub32(clus, 2) * Pow2(k) % TWO32, firstData)
  }

  function SectorToDataCluster(sec: u32, k: nat, firstData: u32): u32 {
    (Sub32(sec, firstData) / Pow2(k) + 2) % TWO32
  }

  // Distinct clusters lie in disjoint runs of sectors behind the FATs, and the
  // way back finds the cluster from any of its sectors.
  lemma {:induction false} ClustersApart(c: u32, d: u32, k: nat, firstData: u32, total: nat)
    requires 2 <= c <= total + 1 && 2 <= d <= total + 1 && firstData + total * Pow2(k) < TWO32
    ensures DataClusterToSector(c, k, firstData) == firstData + (c - 2) * Pow2(k)
    ensures firstData <= DataClusterToSector(c, k, firstData)
    ensures DataClusterToSector(c, k, firstData) + Pow2(k) <= firstData + total * Pow2(k)
    ensures c < d ==> DataClusterToSector(c, k, firstData) + Pow2(k) <= DataClusterToSector(d, k, firstData)
  {
    ClusterAt(c, k, firstData, total);
    ClusterAt(d, k, firstData, total);
    if c < d {
      assert (d - 2) * Pow2(k) - (c - 2) * Pow2(k) == (d - c) * Pow2(k);
      Grow(d - c, Pow2(k));
    }
  }

  lemma ClusterAt(c: u32, k: nat, firstData: u32, total: nat)
    requires 2 <= c <= total + 1 && firstData + total * Pow2(k) < TWO32
    ensures 0 <= (c - 2) * Pow2(k) && (c - 2) * Pow2(k) + Pow2(k) <= total * Pow2(k)
    ensures DataClusterToSector(c, k, firstData) == firstData + (c - 2) * Pow2(k)
  {
    Below(c - 2, total, Pow2(k));
    AddOffset((c - 2) * Pow2(k), firstData);
    assert Sub32(c, 2) == c - 2;
  }

  lemma Below(d: nat, total: nat, p: nat)
    requires d < total
    ensures 0 <= d * p && d * p + p <= total * p
  {
    Grow(total - d, p);
    assert total * p == d * p + (total - d) * p;
  }

  lemma AddOffset(x: nat, f: u32)
    requires f + x < TWO32
    ensures Add32(x % TWO32, f) == f + x
  {}

  lemma {:induction false} SectorRoundTrip(c: u32, k: nat, firstData: u32, total: nat, j: nat)
    requires 2 <= c <= total + 1 && firstData + total * Pow2(k) < TWO32 && j < Pow2(k)
    ensures DataClusterToSector(c, k, firstData) + j < TWO32
    ensures SectorToDataCluster(DataClusterToSector(c, k, firstData) + j, k, firstData) == c
  {
    ClusterAt(c, k, firstData, total);
    ClusterOf(c, (c - 2) * Pow2(k) + j, Pow2(k), firstData, j);
  }

  lemma ClusterOf(c: u32, x: nat, p: nat, f: u32, j: nat)
    requires 2 <= c && x == (c - 2) * p + j && j < p && f + x < TWO32
    ensures (Sub32(f + x, f) / p + 2) % TWO32 == c
  {
    BackToOffset(f, x);
    QuotientBack(x, p, c - 2, j);
  }

  lemma QuotientBack(x: nat, p: nat, q: nat, j: nat)
    requires j < p && x == q * p + j
    ensures x / p == q
  {
    assert q * p == p * q;
    Remainder(x, p, q, j);
  }

  lemma BackToOffset(f: u32, x: nat)
    requires f + x < TWO32
    ensures Sub32(f + x, f) == x
  {}

  // cluster_to_fat_entry, relative to the first sector of the FAT
  function EntrySector(clus: u32): nat {
    Mul32(clus, 4) / 512
  }

  function EntryOffset(clus: u32): (o: nat)
    ensures o + 4 <= 512
  {
    Mul32(clus, 4) % 512
  }

  // Below 2^30 clusters have entries of their own; from there on they repeat.
  lemma {:induction false} EntriesApart(c: u32, d: u32)
    requires c < 0x4000_0000 && d < 0x4000_0000 && c != d && EntrySector(c) == EntrySector(d)
    ensures EntryOffset(c) + 4 <= EntryOffset(d) || EntryOffset(d) + 4 <= EntryOffset(c)
  {}

  lemma {:induction false} EntriesRepeat(c: u32)
    requires c + 0x4000_0000 < TWO32
    ensures EntrySector(c + 0x4000_0000) == EntrySector(c) && EntryOffset(c + 0x4000_0000) == EntryOffset(c)
  {}
}
