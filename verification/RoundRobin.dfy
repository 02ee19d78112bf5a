/** Round-robin interleaving of columns (the loop of _spread_inventory_groups,
    smartbench/engine/project_reader.py). */
module RoundRobin {
  import opened Multisets

  /** What column p adds to row index. */
  function EntryAt<T>(columns: seq<seq<T>>, index: nat, p: nat): seq<T>
    requires p < |columns|
  {
    if index < |columns[p]| then [columns[p][index]] else []
  }

  /** All rows before index and the entries of the first p columns in row index. */
  function Partial<T>(columns: seq<seq<T>>, index: nat, p: nat): seq<T>
    requires p <= |columns|
    decreases index, p
  {
    if p > 0 then Partial(columns, index, p - 1) + EntryAt(columns, index, p - 1)
    else if index > 0 then Partial(columns, index - 1, |columns|)
    else []
  }

  function Longest<T>(columns: seq<seq<T>>): (m: nat)
    ensures forall c :: 0 <= c < |columns| ==> |columns[c]| <= m
    decreases |columns|
  {
    if columns == [] then 0
    else
      var rest := Longest(columns[..|columns| - 1]);
      assert forall c :: 0 <= c < |columns| - 1 ==> columns[..|columns| - 1][c] == columns[c];
      if |columns[|columns| - 1]| > rest then |columns[|columns| - 1]| else rest
  }

  function Interleaved<T>(columns: seq<seq<T>>): seq<T> {
    Partial(columns, Longest(columns), 0)
  }

  lemma {:induction false} EmptyRow<T>(columns: seq<seq<T>>, index: nat, p: nat)
    requires p <= |columns| && forall c :: 0 <= c < p ==> |columns[c]| <= index
    ensures Partial(columns, index, p) == Partial(columns, index, 0)
    decreases p
  {
    if p > 0 {
      EmptyRow(columns, index, p - 1);
      assert EntryAt(columns, index, p - 1) == [];
    }
  }

  lemma {:induction false} RowsPastTheEnd<T>(columns: seq<seq<T>>, index: nat, more: nat)
    requires index <= more && forall c :: 0 <= c < |columns| ==> |columns[c]| <= index
    ensures Partial(columns, more, 0) == Partial(columns, index, 0)
    decreases more
  {
    if index < more {
      RowsPastTheEnd(columns, index, more - 1);
      EmptyRow(columns, more - 1, |columns|);
    }
  }

  /** One turn over the columns. */
  method TakeRow<T>(columns: seq<seq<T>>, index: nat, start: seq<T>) returns (result: seq<T>, added: bool)
    requires start == Partial(columns, index, 0)
    ensures result == Partial(columns, index, |columns|)
    ensures added <==> exists c :: 0 <= c < |columns| && index < |columns[c]|
  {
    result, added := start, false;
    for p := 0 to |columns|
      invariant result == Partial(columns, index, p)
      invariant added <==> exists c :: 0 <= c < p && index < |columns[c]|
    {
      if index < |columns[p]| {
        result := result + [columns[p][index]];
        added := true;
      }
    }
  }

  method Interleave<T>(columns: seq<seq<T>>) returns (result: seq<T>)
    ensures result == Interleaved(columns)
  {
    result := [];
    var index, added := 0, true;
    while added
      invariant index <= Longest(columns) && result == Partial(columns, index, 0)
      invariant !added ==> forall c :: 0 <= c < |columns| ==> |columns[c]| <= index
      decreases Longest(columns) - index, added
    {
      result, added := TakeRow(columns, index, result);
      if added {
        index := index + 1;
      } else {
        EmptyRow(columns, index, |columns|);
      }
    }
    RowsPastTheEnd(columns, index, Longest(columns));
  }

  // ---------- nothing is lost ----------

  function Reached(length: nat, index: nat, inRow: bool): (r: nat)
    ensures r <= length
  {
    var r := index + (if inRow then 1 else 0);
    if r < length then r else length
  }

  /** What the first n columns contribute to the rows before index and p entries of row index. */
  function Heads<T>(columns: seq<seq<T>>, index: nat, p: nat, n: nat): multiset<T>
    requires n <= |columns|
    decreases n
  {
    if n == 0 then multiset{}
    else Heads(columns, index, p, n - 1) + multiset(columns[n - 1][..Reached(|columns[n - 1]|, index, n - 1 < p)])
  }

  function Total<T>(columns: seq<seq<T>>, n: nat): multiset<T>
    requires n <= |columns|
    decreases n
  {
    if n == 0 then multiset{} else Total(columns, n - 1) + multiset(columns[n - 1])
  }

  lemma {:induction false} HeadsStep<T>(columns: seq<seq<T>>, index: nat, p: nat, n: nat)
    requires n <= |columns| && p < |columns|
    ensures Heads(columns, index, p + 1, n) ==
            Heads(columns, index, p, n) + (if p < n then multiset(EntryAt(columns, index, p)) else multiset{})
    decreases n
  {
    if n > 0 {
      HeadsStep(columns, index, p, n - 1);
      if p == n - 1 {
        OneLonger(columns[p], index);
        Regroup(Heads(columns, index, p, n - 1), multiset(columns[p][..Reached(|columns[p]|, index, false)]),
          multiset(EntryAt(columns, index, p)));
      } else if p < n - 1 {
        SwapLast(Heads(columns, index, p, n - 1), multiset(EntryAt(columns, index, p)),
                 multiset(columns[n - 1][..Reached(|columns[n - 1]|, index, false)]));
      }
    }
  }

  lemma OneLonger<T>(s: seq<T>, index: nat)
    ensures multiset(s[..Reached(|s|, index, true)]) ==
            multiset(s[..Reached(|s|, index, false)]) + multiset(if index < |s| then [s[index]] else [])
  {
    if index < |s| {
      assert s[..index + 1] == s[..index] + [s[index]];
    }
  }

  lemma {:induction false} HeadsWrap<T>(columns: seq<seq<T>>, index: nat, n: nat)
    requires n <= |columns|
    ensures Heads(columns, index, |columns|, n) == Heads(columns, index + 1, 0, n)
    decreases n
  {
    if n > 0 { HeadsWrap(columns, index, n - 1); }
  }

  lemma {:induction false} HeadsStart<T>(columns: seq<seq<T>>, n: nat)
    requires n <= |columns|
    ensures Heads(columns, 0, 0, n) == multiset{}
    decreases n
  {
    if n > 0 {
      HeadsStart(columns, n - 1);
      assert columns[n - 1][..0] == [];
    }
  }

  lemma {:induction false} HeadsFull<T>(columns: seq<seq<T>>, index: nat, n: nat)
    requires n <= |columns| && forall c :: 0 <= c < n ==> |columns[c]| <= index
    ensures Heads(columns, index, 0, n) == Total(columns, n)
    decreases n
  {
    if n > 0 {
      HeadsFull(columns, index, n - 1);
      assert columns[n - 1][..|columns[n - 1]|] == columns[n - 1];
    }
  }

  lemma {:induction false} PartialHolds<T>(columns: seq<seq<T>>, index: nat, p: nat)
    requires p <= |columns|
    ensures multiset(Partial(columns, index, p)) == Heads(columns, index, p, |columns|)
    decreases index, p
  {
    if p > 0 {
      PartialHolds(columns, index, p - 1);
      HeadsStep(columns, index, p - 1, |columns|);
      AppendItems(Partial(columns, index, p - 1), EntryAt(columns, index, p - 1), Partial(columns, index, p));
    } else if index > 0 {
      PartialHolds(columns, index - 1, |columns|);
      HeadsWrap(columns, index - 1, |columns|);
    } else {
      HeadsStart(columns, |columns|);
    }
  }

  /** Interleaving is a permutation of the columns' items. */
  lemma InterleavedHoldsAll<T>(columns: seq<seq<T>>)
    ensures multiset(Interleaved(columns)) == Total(columns, |columns|)
  {
    var top := Longest(columns);
    PartialHolds(columns, top, 0);
    HeadsFull(columns, top, |columns|);
  }

  // ---------- fairness ----------

  /** How many items of s belong to file f. */
  function Taken<T>(fileOf: T -> nat, s: seq<T>, f: nat): nat
    decreases |s|
  {
    if s == [] then 0 else Taken(fileOf, s[..|s| - 1], f) + (if fileOf(s[|s| - 1]) == f then 1 else 0)
  }

  /** Column c holds items of file files[c], and files are distinct. */
  ghost predicate ColumnsOf<T>(fileOf: T -> nat, files: seq<nat>, columns: seq<seq<T>>) {
    && |files| == |columns|
    && (forall c, d :: 0 <= c < d < |files| ==> files[c] != files[d])
    && (forall c, i :: 0 <= c < |columns| && 0 <= i < |columns[c]| ==> fileOf(columns[c][i]) == files[c])
  }

  /** No file is more than one scope ahead of a file that still has scopes left. */
  ghost predicate FairSplit<T>(fileOf: T -> nat, files: seq<nat>, columns: seq<seq<T>>, s: seq<T>)
    requires |files| == |columns|
  {
    forall c, d :: 0 <= c < |files| && 0 <= d < |files| ==>
      Taken(fileOf, s, files[d]) <= Taken(fileOf, s, files[c]) + 1 || Taken(fileOf, s, files[c]) == |columns[c]|
  }

  ghost predicate Counts<T>(fileOf: T -> nat, files: seq<nat>, columns: seq<seq<T>>, index: nat, p: nat, s: seq<T>)
    requires |files| == |columns|
  {
    forall c :: 0 <= c < |files| ==> Taken(fileOf, s, files[c]) == Reached(|columns[c]|, index, c < p)
  }

  lemma CountsAreFair<T>(fileOf: T -> nat, files: seq<nat>, columns: seq<seq<T>>, index: nat, p: nat, s: seq<T>)
    requires |files| == |columns| && Counts(fileOf, files, columns, index, p, s)
    ensures FairSplit(fileOf, files, columns, s)
  {}

  ghost predicate FairPrefixes<T>(fileOf: T -> nat, files: seq<nat>, columns: seq<seq<T>>, s: seq<T>)
    requires |files| == |columns|
  {
    forall k :: 0 <= k <= |s| ==> FairSplit(fileOf, files, columns, s[..k])
  }

  lemma CountsStep<T>(fileOf: T -> nat, files: seq<nat>, columns: seq<seq<T>>, index: nat, p: nat, s: seq<T>)
    requires ColumnsOf(fileOf, files, columns) && p < |columns|
    requires Counts(fileOf, files, columns, index, p, s)
    ensures Counts(fileOf, files, columns, index, p + 1, s + EntryAt(columns, index, p))
  {
    if index < |columns[p]| {
      var x := columns[p][index];
      assert (s + [x])[..|s|] == s;
      forall c | 0 <= c < |files| ensures Taken(fileOf, s + [x], files[c]) == Reached(|columns[c]|, index, c < p + 1) {
        assert fileOf(x) == files[p];
        assert files[c] == files[p] <==> c == p;
      }
    } else {
      assert s + [] == s;
    }
  }

  lemma PrefixesStep<T>(fileOf: T -> nat, files: seq<nat>, columns: seq<seq<T>>, s: seq<T>, more: seq<T>)
    requires |files| == |columns| && |more| <= 1
    requires FairPrefixes(fileOf, files, columns, s) && FairSplit(fileOf, files, columns, s + more)
    ensures FairPrefixes(fileOf, files, columns, s + more)
  {
    var t := s + more;
    forall k | 0 <= k <= |t| ensures FairSplit(fileOf, files, columns, t[..k]) {
      if k <= |s| {
        assert t[..k] == s[..k];
      } else {
        assert t[..k] == t;
      }
    }
  }

  lemma {:induction false} PartialIsFair<T>(fileOf: T -> nat, files: seq<nat>, columns: seq<seq<T>>, index: nat, p: nat)
    requires ColumnsOf(fileOf, files, columns) && p <= |columns|
    ensures Counts(fileOf, files, columns, index, p, Partial(columns, index, p))
    ensures FairPrefixes(fileOf, files, columns, Partial(columns, index, p))
    decreases index, p
  {
    if p > 0 {
      PartialIsFair(fileOf, files, columns, index, p - 1);
      CountsStep(fileOf, files, columns, index, p - 1, Partial(columns, index, p - 1));
      CountsAreFair(fileOf, files, columns, index, p, Partial(columns, index, p));
      PrefixesStep(fileOf, files, columns, Partial(columns, index, p - 1), EntryAt(columns, index, p - 1));
    } else if index > 0 {
      PartialIsFair(fileOf, files, columns, index - 1, |columns|);
      CountsWrap(fileOf, files, columns, index - 1, Partial(columns, index, 0));
    } else {
      NothingTaken(fileOf, files, columns);
    }
  }

  lemma CountsWrap<T>(fileOf: T -> nat, files: seq<nat>, columns: seq<seq<T>>, index: nat, s: seq<T>)
    requires |files| == |columns| && Counts(fileOf, files, columns, index, |columns|, s)
    ensures Counts(fileOf, files, columns, index + 1, 0, s)
  {}

  lemma NothingTaken<T>(fileOf: T -> nat, files: seq<nat>, columns: seq<seq<T>>)
    requires |files| == |columns|
    ensures Counts(fileOf, files, columns, 0, 0, []) && FairPrefixes(fileOf, files, columns, [])
  {
    CountsAreFair(fileOf, files, columns, 0, 0, []);
  }

  /** At every prefix of the interleaving, no file is more than one scope ahead of a file that
      still has scopes left. */
  lemma InterleavingIsFair<T>(fileOf: T -> nat, files: seq<nat>, columns: seq<seq<T>>)
    requires ColumnsOf(fileOf, files, columns)
    ensures FairPrefixes(fileOf, files, columns, Interleaved(columns))
  {
    PartialIsFair(fileOf, files, columns, Longest(columns), 0);
  }

  /** In the end every file's scopes are all taken. */
  lemma InterleavingTakesAll<T>(fileOf: T -> nat, files: seq<nat>, columns: seq<seq<T>>)
    requires ColumnsOf(fileOf, files, columns)
    ensures forall c :: 0 <= c < |files| ==> Taken(fileOf, Interleaved(columns), files[c]) == |columns[c]|
  {
    PartialIsFair(fileOf, files, columns, Longest(columns), 0);
  }
}
