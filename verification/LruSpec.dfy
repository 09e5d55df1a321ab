// What keeping the least recently used order means for a cache of fixed size.
module LruSpec {
  import opened Lists

  // One request for k against a list of at most cap keys.
  function Touched<K(==)>(s: seq<K>, k: K, cap: nat): seq<K>
    requires cap > 0
  {
    if k in s then [k] + Without(s, k)
    else if |s| >= cap then [k] + s[..cap - 1]
    else [k] + s
  }

  // The list after a run of requests on an empty cache.
  function Held<K(==)>(run: seq<K>, cap: nat): seq<K>
    requires cap > 0
  {
    if run == [] then [] else Touched(Held(run[..|run| - 1], cap), run[|run| - 1], cap)
  }

  // All keys requested, the latest first.
  function Recent<K(==)>(run: seq<K>): seq<K> {
    if run == [] then []
    else [run[|run| - 1]] + Without(Recent(run[..|run| - 1]), run[|run| - 1])
  }

  function Take<K>(s: seq<K>, n: nat): seq<K> {
    if |s| <= n then s else s[..n]
  }

  lemma {:induction false} RecentOnce<K>(run: seq<K>)
    ensures NoDups(Recent(run))
  {
    if run != [] {
      RecentOnce(run[..|run| - 1]);
      WithoutFacts(Recent(run[..|run| - 1]), run[|run| - 1]);
    }
  }

  lemma {:induction false} WithoutTake<K>(s: seq<K>, k: K, n: nat)
    requires NoDups(s)
    ensures k in Take(s, n + 1) ==> Without(Take(s, n + 1), k) == Take(Without(s, k), n)
    ensures k !in Take(s, n) ==> Take(Without(s, k), n) == Take(s, n)
  {
    if s == [] {
    } else if s[0] == k {
      assert k in Take(s, n) || n == 0;
      assert Take(s, n + 1)[0] == k && Take(s, n + 1)[1..] == Take(s[1..], n);
    } else if n > 0 {
      WithoutTake(s[1..], k, n - 1);
      assert Take(s, n + 1) == [s[0]] + Take(s[1..], n) && Take(s, n) == [s[0]] + Take(s[1..], n - 1);
      assert Take([s[0]] + Without(s[1..], k), n) == [s[0]] + Take(Without(s[1..], k), n - 1);
    }
  }

  // The position of the last request for k.
  function LastUse<K(==)>(run: seq<K>, k: K): (i: nat)
    requires k in run
    ensures i < |run| && run[i] == k && k !in run[i + 1..]
  {
    if run[|run| - 1] == k then |run| - 1
    else
      var i := LastUse(run[..|run| - 1], k);
      assert run[i + 1..] == run[..|run| - 1][i + 1..] + [run[|run| - 1]];
      i
  }

  // Recent has every key requested, and of two keys first the one last used later.
  lemma {:induction false} RecentByLastUse<K>(run: seq<K>, i: nat, j: nat)
    requires i < j < |Recent(run)|
    ensures Recent(run)[i] in run && Recent(run)[j] in run
    ensures LastUse(run, Recent(run)[i]) > LastUse(run, Recent(run)[j])
    decreases |run|, 0
  {
    var n, a, b := |run| - 1, Recent(run)[i], Recent(run)[j];
    RecentTail(run, n, j, b);
    UsedBefore(run, n, b);
    if i > 0 {
      RecentTail(run, n, i, a);
      UsedBefore(run, n, a);
      EarlierFirst(run[..n], run[n], i - 1, j - 1, a, b);
    }
  }

  lemma RecentTail<K>(run: seq<K>, n: nat, j: nat, b: K)
    requires n + 1 == |run| && 0 < j < |Recent(run)| && b == Recent(run)[j]
    ensures b in run && b != run[n]
    ensures j - 1 < |Without(Recent(run[..n]), run[n])| && b == Without(Recent(run[..n]), run[n])[j - 1]
  {
    RecentOnce(run);
    RecentKeys(run, b);
    NoDupsAt(Recent(run), 0, j);
  }

  lemma {:induction false} EarlierFirst<K>(run: seq<K>, k: K, i: nat, j: nat, a: K, b: K)
    requires i < j < |Without(Recent(run), k)| && a == Without(Recent(run), k)[i] && b == Without(Recent(run), k)[j]
    ensures a in run && b in run && LastUse(run, a) > LastUse(run, b)
    decreases |run|, 1
  {
    var x, y := WithoutOrder(Recent(run), k, i, j);
    RecentByLastUse(run, x, y);
  }

  // A key is last used at the end of the run or where it was before.
  lemma UsedBefore<K>(run: seq<K>, n: nat, k: K)
    requires n + 1 == |run| && k in run && k != run[n]
    ensures k in run[..n] && LastUse(run, k) == LastUse(run[..n], k) < n == LastUse(run, run[n])
  {}

  lemma {:induction false} RecentKeys<K>(run: seq<K>, k: K)
    ensures k in Recent(run) <==> k in run
  {
    if run != [] {
      var n := |run| - 1;
      RecentKeys(run[..n], k);
      RecentOnce(run[..n]);
      WithoutFacts(Recent(run[..n]), run[n]);
      assert run == run[..n] + [run[n]];
    }
  }

  // Two elements left when k is taken out come in the order they had.
  lemma {:induction false} WithoutOrder<K>(s: seq<K>, k: K, i: nat, j: nat) returns (x: nat, y: nat)
    requires i < j < |Without(s, k)|
    ensures x < y < |s| && s[x] == Without(s, k)[i] && s[y] == Without(s, k)[j]
  {
    if s[0] == k {
      x, y := i + 1, j + 1;
    } else if i == 0 {
      y := WithoutPlace(s[1..], k, j - 1);
      x, y := 0, y + 1;
    } else {
      x, y := WithoutOrder(s[1..], k, i - 1, j - 1);
      x, y := x + 1, y + 1;
    }
  }

  lemma {:induction false} WithoutPlace<K>(s: seq<K>, k: K, j: nat) returns (y: nat)
    requires j < |Without(s, k)|
    ensures y < |s| && s[y] == Without(s, k)[j]
  {
    if s[0] == k {
      y := j + 1;
    } else if j == 0 {
      y := 0;
    } else {
      y := WithoutPlace(s[1..], k, j - 1);
      y := y + 1;
    }
  }

  // The cache holds exactly the cap most recently requested keys, so what is
  // given up is always the one not asked for the longest.
  lemma {:induction false} HeldIsMostRecent<K>(run: seq<K>, cap: nat)
    requires cap > 0
    ensures Held(run, cap) == Take(Recent(run), cap)
  {
    if run != [] {
      var before, k := run[..|run| - 1], run[|run| - 1];
      HeldIsMostRecent(before, cap);
      RecentOnce(before);
      var r := Recent(before);
      WithoutTake(r, k, cap - 1);
      if k !in Take(r, cap) {
        assert |r| > cap - 1 ==> Take(r, cap)[..cap - 1] == Take(r, cap - 1);
        assert k !in Take(r, cap - 1);
      }
      assert Take([k] + Without(r, k), cap) == [k] + Take(Without(r, k), cap - 1);
    }
  }
}
