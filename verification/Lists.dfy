// Linked lists of the kernel as sequences without repetition.
module Lists {
  ghost predicate NoDups<T>(s: seq<T>) {
    s == [] || (s[0] !in s[1..] && NoDups(s[1..]))
  }

  // list_del
  function Without<T(==)>(s: seq<T>, x: T): seq<T> {
    if s == [] then [] else if s[0] == x then s[1..] else [s[0]] + Without(s[1..], x)
  }

  lemma {:induction false} WithoutFacts<T>(s: seq<T>, x: T)
    requires NoDups(s)
    ensures NoDups(Without(s, x)) && forall y :: y in Without(s, x) <==> y in s && y != x
    ensures x in s ==> |Without(s, x)| == |s| - 1
  {
    if s != [] {
      WithoutFacts(s[1..], x);
      assert s == [s[0]] + s[1..];
    }
  }

  // The first x goes, and everything else stays where it was.
  lemma {:induction false} WithoutSplit<T>(s: seq<T>, x: T) returns (i: nat)
    requires x in s
    ensures i < |s| && s[i] == x && x !in s[..i] && Without(s, x) == s[..i] + s[i + 1..]
  {
    if s[0] == x {
      i := 0;
    } else {
      var j := WithoutSplit(s[1..], x);
      i := j + 1;
      assert s[..i] == [s[0]] + s[1..][..j] && s[i + 1..] == s[1..][j + 1..];
    }
  }

  lemma {:induction false} WithoutIn<T>(s: seq<T>, x: T)
    ensures forall y :: y in Without(s, x) ==> y in s
  {
    if s != [] {
      WithoutIn(s[1..], x);
    }
  }

  lemma {:induction false} NoDupsAt<T>(s: seq<T>, i: nat, j: nat)
    requires NoDups(s) && i < j < |s|
    ensures s[i] != s[j]
  {
    if i == 0 {
      assert s[j] == s[1..][j - 1];
    } else {
      NoDupsAt(s[1..], i - 1, j - 1);
    }
  }

  lemma {:induction false} NoDupsAppend<T>(s: seq<T>, x: T)
    requires NoDups(s) && x !in s
    ensures NoDups(s + [x])
  {
    if s != [] {
      NoDupsAppend(s[1..], x);
      assert (s + [x])[1..] == s[1..] + [x];
    }
  }

  lemma {:induction false} NoDupsTake<T>(s: seq<T>, n: nat)
    requires NoDups(s) && n <= |s|
    ensures NoDups(s[..n])
  {
    if n > 0 {
      NoDupsTake(s[1..], n - 1);
      assert s[..n][1..] == s[1..][..n - 1];
    }
  }

  // Removing the last element of a list is dropping it.
  lemma {:induction false} WithoutLast<T>(s: seq<T>)
    requires NoDups(s) && s != []
    ensures Without(s, s[|s| - 1]) == s[..|s| - 1]
  {
    if |s| > 1 {
      NoDupsAt(s, 0, |s| - 1);
      WithoutLast(s[1..]);
    }
  }
}
