/** Multiset algebra for permutation arguments. */
module Multisets {
  import opened Sequences

  lemma Regroup<T>(a: multiset<T>, b: multiset<T>, c: multiset<T>)
    ensures a + b + c == a + (b + c)
  {}

  lemma Rotate<T>(a: multiset<T>, x: multiset<T>, b: multiset<T>)
    ensures a + x + b == x + (a + b)
  {}

  lemma SwapLast<T>(a: multiset<T>, b: multiset<T>, c: multiset<T>)
    ensures a + b + c == a + c + b
  {}

  lemma AppendItems<T>(s: seq<T>, t: seq<T>, all: seq<T>)
    requires all == s + t
    ensures multiset(all) == multiset(s) + multiset(t)
  {}

  lemma AppendOne<T>(m: multiset<T>, s: seq<T>, x: T)
    ensures m + multiset(s + [x]) == m + multiset(s) + multiset{x}
  {}

  lemma CountOneMore<T>(s: seq<T>, x: T, y: T)
    ensures multiset(s + [x])[y] == multiset(s)[y] + (if x == y then 1 else 0)
  {
    assert multiset(s + [x]) == multiset(s) + multiset{x};
  }

  lemma SameLength<T>(s: seq<T>, t: seq<T>)
    requires multiset(s) == multiset(t)
    ensures |s| == |t|
  {
    assert |s| == |multiset(s)|;
  }

  lemma PrefixIsSubmultiset<T>(s: seq<T>, n: nat)
    requires n <= |s|
    ensures multiset(s[..n]) <= multiset(s)
  {
    assert s == s[..n] + s[n..];
  }

  lemma SubmultisetGrows<T>(s: seq<T>, t: seq<T>, x: T)
    requires multiset(s) <= multiset(t)
    ensures multiset(s) <= multiset(t + [x]) && multiset(s + [x]) <= multiset(t + [x])
  {
    assert multiset(t + [x]) == multiset(t) + multiset{x};
    assert multiset(s + [x]) == multiset(s) + multiset{x};
  }

  ghost predicate Once<T(!new)>(m: multiset<T>) {
    forall x :: x in m ==> m[x] == 1
  }

  lemma DistinctIsOnce<T(!new)>(s: seq<T>)
    requires Distinct(s)
    ensures Once(multiset(s))
  {
    forall x | x in multiset(s) ensures multiset(s)[x] == 1 {
      var k :| 0 <= k < |s| && s[k] == x;
      assert s == s[..k] + [x] + s[k + 1..];
      assert x !in s[..k] && x !in s[k + 1..];
    }
  }

  lemma OnceIsDistinct<T(!new)>(s: seq<T>)
    requires Once(multiset(s))
    ensures Distinct(s)
  {
    forall i, j | 0 <= i < j < |s| ensures s[i] != s[j] {
      assert s == s[..j] + [s[j]] + s[j + 1..];
      assert s[..j][i] == s[i];
      assert s[j] in multiset(s);
    }
  }

  lemma OnceSplits<T(!new)>(s: seq<T>)
    requires s != [] && Once(multiset(s))
    ensures s[|s| - 1] !in s[..|s| - 1] && Once(multiset(s[..|s| - 1]))
  {
    var rest, x := s[..|s| - 1], s[|s| - 1];
    assert s == rest + [x];
    assert multiset(s) == multiset(rest) + multiset{x};
    assert x in multiset(s);
    forall y | y in multiset(rest) ensures multiset(rest)[y] == 1 {
      assert y in multiset(s);
    }
  }
}
