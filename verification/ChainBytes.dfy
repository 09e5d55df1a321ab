// The byte string of a cluster chain: its blocks one after the other.
module ChainBytes {
  import opened Arith
  import opened Bytes
  import opened Words
  import opened Clock
  import opened CacheView

  ghost predicate BlocksFit(view: Disk, secs: seq<int>, cl: nat) {
    forall i :: 0 <= i < |secs| ==> secs[i] in view && |view[secs[i]]| == cl
  }

  ghost predicate AllApart(secs: seq<int>) {
    forall i, j :: 0 <= i < j < |secs| ==> secs[i] != secs[j]
  }

  ghost function Flat(view: Disk, secs: seq<int>, cl: nat): (r: seq<byte>)
    requires BlocksFit(view, secs, cl)
    ensures |r| == |secs| * cl
  {
    if secs == [] then []
    else
      assert |secs| * cl == cl + (|secs| - 1) * cl;
      view[secs[0]] + Flat(view, secs[1..], cl)
  }

  lemma Room(k: nat, n: nat, cl: nat)
    requires k < n
    ensures k * cl + cl <= n * cl
  {
    assert n * cl == k * cl + (n - k) * cl;
    Grow(n - k, cl);
  }

  lemma Shift(k: nat, cl: nat)
    requires k > 0
    ensures k * cl == cl + (k - 1) * cl
  {}

  // Block k of the string is the k-th block of the chain.
  lemma {:induction false} FlatBlock(view: Disk, secs: seq<int>, cl: nat, k: nat)
    requires BlocksFit(view, secs, cl) && k < |secs|
    ensures k * cl + cl <= |secs| * cl
    ensures Flat(view, secs, cl)[k * cl..k * cl + cl] == view[secs[k]]
  {
    Room(k, |secs|, cl);
    if k == 0 {
      assert 0 * cl == 0;
    } else {
      var rest := Flat(view, secs[1..], cl);
      FlatBlock(view, secs[1..], cl, k - 1);
      Room(k - 1, |secs| - 1, cl);
      Shift(k, cl);
      assert Flat(view, secs, cl) == view[secs[0]] + rest;
      assert Flat(view, secs, cl)[k * cl..k * cl + cl] == rest[(k - 1) * cl..(k - 1) * cl + cl];
    }
  }

  // A part of block k.
  lemma {:induction false} FlatPart(view: Disk, secs: seq<int>, cl: nat, k: nat, lo: nat, hi: nat)
    requires BlocksFit(view, secs, cl) && k < |secs| && lo <= hi <= cl
    ensures k * cl + cl <= |secs| * cl
    ensures Flat(view, secs, cl)[k * cl + lo..k * cl + hi] == view[secs[k]][lo..hi]
  {
    FlatBlock(view, secs, cl, k);
    Within(Flat(view, secs, cl), k * cl, cl, lo, hi);
  }

  lemma Within(s: seq<byte>, at: nat, n: nat, lo: nat, hi: nat)
    requires lo <= hi <= n && at + n <= |s|
    ensures s[at + lo..at + hi] == s[at..at + n][lo..hi]
  {
    var b := s[at..at + n];
    assert forall i :: 0 <= i < hi - lo ==> b[lo..hi][i] == b[lo + i] == s[at + lo + i];
  }

  lemma {:induction false} FlatSame(view: Disk, view': Disk, secs: seq<int>, cl: nat)
    requires BlocksFit(view, secs, cl) && BlocksFit(view', secs, cl)
    requires forall i :: 0 <= i < |secs| ==> view[secs[i]] == view'[secs[i]]
    ensures Flat(view, secs, cl) == Flat(view', secs, cl)
  {
    if secs != [] {
      assert forall i :: 0 <= i < |secs| - 1 ==> secs[1..][i] == secs[i + 1];
      FlatSame(view, view', secs[1..], cl);
    }
  }

  // A splice in one block is a splice in the string.
  lemma {:induction false} FlatSplice(view: Disk, view': Disk, secs: seq<int>, cl: nat, k: nat, lo: nat, d: seq<byte>)
    requires BlocksFit(view, secs, cl) && AllApart(secs) && k < |secs| && lo + |d| <= cl
    requires view' == view[secs[k] := Splice(view[secs[k]], lo, d)]
    ensures k * cl + cl <= |secs| * cl
    ensures BlocksFit(view', secs, cl) && Flat(view', secs, cl) == Splice(Flat(view, secs, cl), k * cl + lo, d)
  {
    Room(k, |secs|, cl);
    var tail := secs[1..];
    assert forall i :: 0 <= i < |tail| ==> tail[i] == secs[i + 1];
    if k == 0 {
      FlatSame(view, view', tail, cl);
      assert 0 * cl == 0;
      SpliceLeft(view[secs[0]], Flat(view, tail, cl), lo, d);
    } else {
      FlatSplice(view, view', tail, cl, k - 1, lo, d);
      Room(k - 1, |tail|, cl);
      Shift(k, cl);
      SpliceRight(view[secs[0]], Flat(view, tail, cl), (k - 1) * cl + lo, d);
    }
  }

  // buf holds the n bytes of s from p0 on, and behind them what is in orig.
  ghost predicate Filled(s: seq<byte>, buf: seq<byte>, orig: seq<byte>, p0: nat, n: nat) {
    p0 + n <= |s| && n <= |orig| && buf == s[p0..p0 + n] + orig[n..]
  }

  lemma FilledNone(s: seq<byte>, buf: seq<byte>, p0: nat)
    requires p0 <= |s|
    ensures Filled(s, buf, buf, p0, 0)
  {}

  // Copying on from a position within block k.
  lemma FillOn(view: Disk, secs: seq<int>, cl: nat, k: nat, lo: nat, hi: nat,
               s: seq<byte>, buf: seq<byte>, buf': seq<byte>, orig: seq<byte>, p0: nat, n: nat, m: nat)
    requires BlocksFit(view, secs, cl) && k < |secs| && lo <= hi <= cl && k * cl + lo == p0 + n
    requires s == Flat(view, secs, cl) && Filled(s, buf, orig, p0, n) && m == n + (hi - lo) <= |orig|
    requires buf' == buf[..n] + view[secs[k]][lo..hi] + buf[m..]
    ensures Filled(s, buf', orig, p0, m)
  {
    FlatPart(view, secs, cl, k, lo, hi);
    Append(s, p0, n, hi - lo);
    assert buf[..n] == s[p0..p0 + n] && buf[m..] == orig[m..];
  }

  lemma Append(s: seq<byte>, p0: nat, n: nat, d: nat)
    requires p0 + n + d <= |s|
    ensures s[p0..p0 + n] + s[p0 + n..p0 + n + d] == s[p0..p0 + n + d]
  {}

  // c is s with the first n bytes of d written from p0 on.
  ghost predicate Written(s: seq<byte>, c: seq<byte>, d: seq<byte>, p0: nat, n: nat) {
    n <= |d| && p0 + n <= |s| && c == Splice(s, p0, d[..n])
  }

  lemma WrittenNone(s: seq<byte>, d: seq<byte>, p0: nat)
    requires p0 <= |s|
    ensures Written(s, s, d, p0, 0)
  {}

  // A write going on within block k.
  lemma PutOn(view: Disk, view': Disk, secs: seq<int>, cl: nat, k: nat, lo: nat,
              s: seq<byte>, d: seq<byte>, p0: nat, n: nat, m: nat)
    requires BlocksFit(view, secs, cl) && AllApart(secs) && k < |secs| && OnBlock(k, lo, cl, p0 + n)
    requires Written(s, Flat(view, secs, cl), d, p0, n) && n <= m <= |d| && lo + (m - n) <= cl && p0 + m <= |s|
    requires view' == view[secs[k] := Splice(view[secs[k]], lo, d[n..m])]
    ensures BlocksFit(view', secs, cl) && Written(s, Flat(view', secs, cl), d, p0, m)
  {
    FlatSplice(view, view', secs, cl, k, lo, d[n..m]);
    SpliceTwice(s, p0, d[..n], d[n..m]);
    assert d[..n] + d[n..m] == d[..m];
  }

  function Div(x: nat, cl: nat): (q: nat)
    requires cl > 0
    ensures q * cl <= x < q * cl + cl
  {
    assert x == x / cl * cl + x % cl;
    x / cl
  }

  function Mod(x: nat, cl: nat): (r: nat)
    requires cl > 0
    ensures r < cl && x == Div(x, cl) * cl + r
  {
    x % cl
  }

  // Where a range of bytes begins and ends among the blocks.
  lemma RangeBlocks(loc: nat, n: nat, cl: nat, blocks: nat)
    requires 0 < n && 0 < cl && loc + n <= blocks * cl
    ensures Div(loc, cl) <= Div(loc + n - 1, cl) < blocks
  {
    var a, b := Div(loc, cl), Div(loc + n - 1, cl);
    if b < a {
      Room(b, a, cl);
      assert false;
    }
    if blocks <= b {
      AtLeast(blocks, b, cl);
      assert false;
    }
  }

  lemma AtLeast(a: nat, b: nat, cl: nat)
    requires a <= b
    ensures a * cl <= b * cl
  {}

  // Byte sb of block sc is byte pos of the string.
  ghost predicate OnBlock(sc: nat, sb: nat, cl: nat, pos: nat) {
    sb < cl && sc * cl + sb == pos
  }

  // A copy loop that is not in its last block fills up the block it is in ...
  lemma NextBlock(sc: nat, sb: nat, ec: nat, eb: nat, cl: nat, pos: nat, last: nat, next: nat, pos': nat)
    requires sc < ec && OnBlock(sc, sb, cl, pos) && OnBlock(ec, eb, cl, last)
    requires next == sc + 1 && pos' == pos + (cl - sb)
    ensures OnBlock(next, 0, cl, pos') && pos' <= last
  {
    assert (sc + 1) * cl == sc * cl + cl;
    Room(sc, ec, cl);
  }

  // ... and in the last one it stops behind the last byte.
  lemma LastBlock(sc: nat, sb: nat, eb: nat, cl: nat, pos: nat, last: nat)
    requires pos <= last && OnBlock(sc, sb, cl, pos) && OnBlock(sc, eb, cl, last)
    ensures sb <= eb < cl && pos + (eb + 1 - sb) == last + 1
  {}

  // Copying bytes out of a block ...
  method CopyOut(src: Blk, from: nat, to: nat, buf: array<byte>, at: nat, end: nat)
    requires from <= to <= |src| && end == at + (to - from) <= buf.Length
    modifies buf
    ensures buf[..] == old(buf[..at]) + src[from..to] + old(buf[end..])
  {
    var i, cc := from, at;
    while i < to
      invariant from <= i <= to && cc == at + (i - from)
      invariant buf[..] == old(buf[..at]) + src[from..i] + old(buf[cc..])
    {
      buf[cc] := src[i];
      i, cc := i + 1, cc + 1;
    }
  }

  // ... and into one.
  method CopyIn(dst: Blk, from: nat, to: nat, buf: array<byte>, at: nat, end: nat) returns (r: Blk)
    requires from <= to <= |dst| && end == at + (to - from) <= buf.Length
    ensures r == Splice(dst, from, buf[at..end])
  {
    var i, cc := from, at;
    r := dst;
    while i < to
      invariant from <= i <= to && cc == at + (i - from)
      invariant r == Splice(dst, from, buf[at..cc])
    {
      r := r[i := buf[cc]];
      i, cc := i + 1, cc + 1;
    }
  }
}
