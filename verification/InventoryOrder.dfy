/** The order in which scopes compete for the inventory (_inventory_group_order and
    _spread_inventory_groups, smartbench/engine/project_reader.py). */
module InventoryOrder {
  import opened Sequences
  import opened Multisets
  import opened Ir
  import opened ProjectReader
  import opened Bisection
  import opened RoundRobin
  import opened Inventory

  function FileOf(g: Group): nat {
    if g == [] then 0 else g[0].file
  }

  /** The order of _inventory_group_key: file, place in the file, scope. */
  predicate GroupLeq(a: Group, b: Group) {
    if a == [] || b == [] then a == []
    else
      var x, y := a[0], b[0];
      || x.file < y.file
      || (x.file == y.file && (x.position < y.position || (x.position == y.position && x.subject <= y.subject)))
  }

  function OfFile(groups: seq<Group>, file: nat): seq<Group>
    decreases |groups|
  {
    if groups == [] then []
    else
      OfFile(groups[..|groups| - 1], file) +
      (if FileOf(groups[|groups| - 1]) == file then [groups[|groups| - 1]] else [])
  }

  lemma {:induction false} OfFileIsUniform(groups: seq<Group>, file: nat)
    ensures forall g :: g in OfFile(groups, file) <==> g in groups && FileOf(g) == file
    decreases |groups|
  {
    if groups != [] {
      SplitLast(groups);
      OfFileIsUniform(groups[..|groups| - 1], file);
    }
  }

  // ---------- by file ----------

  ghost predicate ByFile(groups: seq<Group>, byFile: map<nat, seq<Group>>) {
    && (forall f :: f in byFile ==> byFile[f] == OfFile(groups, f) && byFile[f] != [])
    && (forall g :: g in groups ==> FileOf(g) in byFile)
  }

  function AddToFile(byFile: map<nat, seq<Group>>, g: Group): map<nat, seq<Group>> {
    byFile[FileOf(g) := (if FileOf(g) in byFile then byFile[FileOf(g)] else []) + [g]]
  }

  lemma ByFileOneMore(groups: seq<Group>, byFile: map<nat, seq<Group>>, g: Group)
    requires ByFile(groups, byFile)
    ensures ByFile(groups + [g], AddToFile(byFile, g))
  {
    assert (groups + [g])[..|groups|] == groups;
    if FileOf(g) !in byFile { OfFileOfNone(groups, FileOf(g)); }
  }

  lemma {:induction false} OfFileOfNone(groups: seq<Group>, file: nat)
    requires forall g :: g in groups ==> FileOf(g) != file
    ensures OfFile(groups, file) == []
    decreases |groups|
  {
    if groups != [] {
      SplitLast(groups);
      OfFileOfNone(groups[..|groups| - 1], file);
    }
  }

  lemma KeysAreFiles(groups: seq<Group>, byFile: map<nat, seq<Group>>)
    requires ByFile(groups, byFile)
    ensures byFile.Keys == FilesOf(groups)
  {
    forall f | f in byFile ensures f in FilesOf(groups) {
      OfFileIsUniform(groups, f);
      assert byFile[f][0] in OfFile(groups, f);
    }
  }

  method SplitByFile(groups: seq<Group>) returns (byFile: map<nat, seq<Group>>)
    ensures ByFile(groups, byFile)
  {
    byFile := map[];
    for i := 0 to |groups|
      invariant ByFile(groups[..i], byFile)
    {
      assert groups[..i + 1] == groups[..i] + [groups[i]];
      ByFileOneMore(groups[..i], byFile, groups[i]);
      byFile := AddToFile(byFile, groups[i]);
    }
    assert groups[..|groups|] == groups;
  }

  // ---------- nothing is lost ----------

  function SumFiles(groups: seq<Group>, files: seq<nat>, n: nat): multiset<Group>
    requires n <= |files|
    decreases n
  {
    if n == 0 then multiset{} else SumFiles(groups, files, n - 1) + multiset(OfFile(groups, files[n - 1]))
  }

  /** What one more group adds to the first n files. */
  function Extra(files: seq<nat>, n: nat, g: Group): multiset<Group>
    requires n <= |files|
  {
    if FileOf(g) in files[..n] then multiset{g} else multiset{}
  }

  lemma ExtraStep(files: seq<nat>, n: nat, g: Group)
    requires 0 < n <= |files| && Distinct(files)
    ensures if FileOf(g) == files[n - 1] then Extra(files, n - 1, g) == multiset{} && Extra(files, n, g) == multiset{g}
            else Extra(files, n, g) == Extra(files, n - 1, g)
  {
    assert files[..n] == files[..n - 1] + [files[n - 1]];
  }

  lemma {:induction false} SumOneMoreGroup(groups: seq<Group>, g: Group, files: seq<nat>, n: nat)
    requires n <= |files| && Distinct(files)
    ensures SumFiles(groups + [g], files, n) == SumFiles(groups, files, n) + Extra(files, n, g)
    decreases n
  {
    if n == 0 {
      assert files[..0] == [];
    } else {
      SumOneMoreGroup(groups, g, files, n - 1);
      SumStep(groups, g, files, n);
    }
  }

  lemma SumStep(groups: seq<Group>, g: Group, files: seq<nat>, n: nat)
    requires 0 < n <= |files| && Distinct(files)
    requires SumFiles(groups + [g], files, n - 1) == SumFiles(groups, files, n - 1) + Extra(files, n - 1, g)
    ensures SumFiles(groups + [g], files, n) == SumFiles(groups, files, n) + Extra(files, n, g)
  {
    var before, of, of' := SumFiles(groups, files, n - 1), OfFile(groups, files[n - 1]),
    OfFile(groups + [g], files[n - 1]);
    calc {
      SumFiles(groups + [g], files, n);
      before + Extra(files, n - 1, g) + multiset(of');
      { OfFileOneMore(groups, g, files[n - 1]);
        ExtraStep(files, n, g);
        AddExtra(before, of, Extra(files, n - 1, g), Extra(files, n, g), of', FileOf(g) == files[n - 1], g); }
      before + multiset(of) + Extra(files, n, g);
      SumFiles(groups, files, n) + Extra(files, n, g);
    }
  }

  lemma AddExtra(
        before: multiset<Group>, of: seq<Group>, extra0: multiset<Group>, extra: multiset<Group>,
        of': seq<Group>, here: bool, g: Group)
    requires if here then extra0 == multiset{} && extra == multiset{g} && of' == of + [g]
             else extra == extra0 && of' == of
    ensures before + extra0 + multiset(of') == before + multiset(of) + extra
  {
    if here {
      AppendOne(before, of, g);
    } else {
      SwapLast(before, extra, multiset(of));
    }
  }

  lemma OfFileOneMore(groups: seq<Group>, g: Group, file: nat)
    ensures OfFile(groups + [g], file) == if FileOf(g) == file then OfFile(groups, file) + [g] else OfFile(groups, file)
  {
    assert (groups + [g])[..|groups|] == groups;
  }

  /** Splitting by file and summing over all files gives back the groups. */
  lemma {:induction false} SumIsAll(groups: seq<Group>, files: seq<nat>)
    requires Distinct(files) && forall g :: g in groups ==> FileOf(g) in files
    ensures SumFiles(groups, files, |files|) == multiset(groups)
    decreases |groups|
  {
    if groups == [] {
      SumOfNone(files, |files|);
    } else {
      SplitLast(groups);
      var rest, g := groups[..|groups| - 1], groups[|groups| - 1];
      assert g in groups;
      SumIsAll(rest, files);
      SumOneMoreGroup(rest, g, files, |files|);
      assert files[..|files|] == files;
      assert multiset(rest + [g]) == multiset(rest) + multiset{g};
    }
  }

  lemma {:induction false} SumOfNone(files: seq<nat>, n: nat)
    requires n <= |files|
    ensures SumFiles([], files, n) == multiset{}
    decreases n
  {
    if n > 0 { SumOfNone(files, n - 1); }
  }

  /** Column c is some order of the groups of file files[c]. */
  ghost predicate FileColumns(groups: seq<Group>, files: seq<nat>, columns: seq<seq<Group>>) {
    && |columns| == |files|
    && forall c :: 0 <= c < |columns| ==> multiset(columns[c]) == multiset(OfFile(groups, files[c]))
  }

  lemma {:induction false} ColumnsSum(groups: seq<Group>, files: seq<nat>, columns: seq<seq<Group>>, n: nat)
    requires FileColumns(groups, files, columns) && n <= |columns|
    ensures Total(columns, n) == SumFiles(groups, files, n)
    decreases n
  {
    if n > 0 { ColumnsSum(groups, files, columns, n - 1); }
  }

  lemma ColumnsAreByFile(groups: seq<Group>, files: seq<nat>, columns: seq<seq<Group>>)
    requires FileColumns(groups, files, columns) && Distinct(files)
    ensures ColumnsOf(FileOf, files, columns)
  {
    forall c, i | 0 <= c < |columns| && 0 <= i < |columns[c]| ensures FileOf(columns[c][i]) == files[c] {
      OfFileIsUniform(groups, files[c]);
      assert columns[c][i] in multiset(columns[c]);
      assert columns[c][i] in OfFile(groups, files[c]);
    }
  }

  // ---------- fairness ----------

  /** At every prefix, no file is more than one scope ahead of a file that still has scopes left. */
  ghost predicate FairOrder(s: seq<Group>) {
    forall k, f: nat, h: nat :: 0 <= k <= |s| ==>
      Taken(FileOf, s[..k], h) <= Taken(FileOf, s[..k], f) + 1 || Taken(FileOf, s[..k], f) == Taken(FileOf, s, f)
  }

  lemma {:induction false} TakenOfAbsent(s: seq<Group>, f: nat)
    requires forall g :: g in s ==> FileOf(g) != f
    ensures Taken(FileOf, s, f) == 0
    decreases |s|
  {
    if s != [] {
      SplitLast(s);
      assert s[|s| - 1] in s;
      TakenOfAbsent(s[..|s| - 1], f);
    }
  }

  lemma InterleavingIsFairOrder(groups: seq<Group>, files: seq<nat>, columns: seq<seq<Group>>, s: seq<Group>)
    requires FileColumns(groups, files, columns) && Distinct(files) && s == Interleaved(columns)
    requires multiset(s) == multiset(groups) && forall g :: g in groups ==> FileOf(g) in files
    ensures FairOrder(s)
  {
    ColumnsAreByFile(groups, files, columns);
    InterleavingIsFair(FileOf, files, columns);
    InterleavingTakesAll(FileOf, files, columns);
    forall k, f: nat, h: nat | 0 <= k <= |s|
      ensures Taken(FileOf, s[..k], h) <= Taken(FileOf, s[..k], f) + 1 ||
              Taken(FileOf, s[..k], f) == Taken(FileOf, s, f)
    {
      FairAtPrefix(groups, files, columns, s, k, f, h);
    }
  }

  lemma FairAtPrefix(groups: seq<Group>, files: seq<nat>, columns: seq<seq<Group>>, s: seq<Group>, k: nat, f: nat,
          h: nat)
    requires |files| == |columns| && k <= |s|
    requires multiset(s) == multiset(groups) && forall g :: g in groups ==> FileOf(g) in files
    requires FairSplit(FileOf, files, columns, s[..k])
    requires forall c :: 0 <= c < |files| ==> Taken(FileOf, s, files[c]) == |columns[c]|
    ensures Taken(FileOf, s[..k], h) <= Taken(FileOf, s[..k], f) + 1 || Taken(FileOf, s[..k], f) == Taken(FileOf, s, f)
  {
    forall g | g in s ensures FileOf(g) in files {
      assert g in multiset(s);
      assert g in groups;
    }
    if f !in files {
      TakenOfAbsent(s, f);
      TakenOfAbsent(s[..k], f);
    } else if h !in files {
      TakenOfAbsent(s[..k], h);
    } else {
      var c :| 0 <= c < |files| && files[c] == f;
      var d :| 0 <= d < |files| && files[d] == h;
    }
  }

  // ---------- the spread ----------

  lemma AscendingIsDistinct(s: seq<nat>)
    requires Ascending(s)
    ensures Distinct(s)
  {}

  /** The files in bisection order: each file of the groups, once. */
  lemma FileOrderIsComplete(files: set<nat>)
    ensures Distinct(MidpointOrderOf(SortedSet(files)))
    ensures forall f :: f in MidpointOrderOf(SortedSet(files)) <==> f in files
  {
    var sorted := SortedSet(files);
    MidpointOrderKeepsItems(sorted);
    AscendingIsDistinct(sorted);
    DistinctIsOnce(sorted);
    OnceIsDistinct(MidpointOrderOf(sorted));
    forall f ensures f in MidpointOrderOf(sorted) <==> f in files {
      assert f in multiset(MidpointOrderOf(sorted)) <==> f in multiset(sorted);
    }
  }

  /** The scopes of each file, in bisection order. */
  function ColumnsFor(sorted: seq<Group>, files: seq<nat>): seq<seq<Group>>
    decreases |files|
  {
    if files == [] then []
    else ColumnsFor(sorted, files[..|files| - 1]) + [MidpointOrderOf(OfFile(sorted, files[|files| - 1]))]
  }

  lemma AddColumn(groups: seq<Group>, files: seq<nat>, columns: seq<seq<Group>>, file: nat, column: seq<Group>)
    requires FileColumns(groups, files, columns) && multiset(column) == multiset(OfFile(groups, file))
    ensures FileColumns(groups, files + [file], columns + [column])
  {}

  lemma {:induction false} ColumnsForHold(sorted: seq<Group>, files: seq<nat>)
    ensures FileColumns(sorted, files, ColumnsFor(sorted, files))
    decreases |files|
  {
    if files != [] {
      var rest := files[..|files| - 1];
      ColumnsForHold(sorted, rest);
      MidpointOrderKeepsItems(OfFile(sorted, files[|files| - 1]));
      AddColumn(sorted, rest, ColumnsFor(sorted, rest), files[|files| - 1],
        MidpointOrderOf(OfFile(sorted, files[|files| - 1])));
      assert files == rest + [files[|files| - 1]];
    }
  }

  function FilesOf(groups: seq<Group>): set<nat> {
    set g | g in groups :: FileOf(g)
  }

  /** Scopes in bisection order, interleaved over files in bisection order. */
  function SpreadOf(groups: seq<Group>): seq<Group> {
    var sorted := Sort(GroupLeq, groups);
    Interleaved(ColumnsFor(sorted, MidpointOrderOf(SortedSet(FilesOf(sorted)))))
  }

  method ScopeOrders(sorted: seq<Group>, byFile: map<nat, seq<Group>>, files: seq<nat>)
    returns (columns: seq<seq<Group>>)
    requires ByFile(sorted, byFile) && forall f :: f in files ==> f in byFile
    ensures columns == ColumnsFor(sorted, files)
  {
    columns := [];
    for i := 0 to |files|
      invariant columns == ColumnsFor(sorted, files[..i])
    {
      assert files[i] in files && files[..i + 1][..i] == files[..i];
      var column, _ := MidpointOrder(byFile[files[i]]);
      columns := columns + [column];
    }
    assert files[..|files|] == files;
  }

  /** _spread_inventory_groups */
  method Spread(groups: seq<Group>) returns (result: seq<Group>)
    ensures result == SpreadOf(groups)
  {
    var sorted := Sort(GroupLeq, groups);
    var byFile := SplitByFile(sorted);
    KeysAreFiles(sorted, byFile);
    var files, _ := MidpointOrder(SortedSet(byFile.Keys));
    FileOrderIsComplete(byFile.Keys);
    var columns := ScopeOrders(sorted, byFile, files);
    result := Interleave(columns);
  }

  /** The spread is a fair permutation of the groups. */
  lemma SpreadIsFair(groups: seq<Group>)
    ensures multiset(SpreadOf(groups)) == multiset(groups) && FairOrder(SpreadOf(groups))
  {
    var sorted := Sort(GroupLeq, groups);
    var files := MidpointOrderOf(SortedSet(FilesOf(sorted)));
    FileOrderIsComplete(FilesOf(sorted));
    ColumnsForHold(sorted, files);
    SpreadHoldsAll(sorted, files, ColumnsFor(sorted, files));
    InterleavingIsFairOrder(sorted, files, ColumnsFor(sorted, files), SpreadOf(groups));
  }

  lemma SpreadHoldsAll(groups: seq<Group>, files: seq<nat>, columns: seq<seq<Group>>)
    requires FileColumns(groups, files, columns) && Distinct(files) && forall g :: g in groups ==> FileOf(g) in files
    ensures multiset(Interleaved(columns)) == multiset(groups)
  {
    InterleavedHoldsAll(columns);
    ColumnsSum(groups, files, columns, |columns|);
    SumIsAll(groups, files);
  }

  // ---------- cleanup scopes first ----------

  predicate HasCleanup(g: Group) {
    exists x :: x in g && x.fact.role.CleanupRegistration?
  }

  function CleanupGroups(groups: seq<Group>): seq<Group>
    decreases |groups|
  {
    if groups == [] then []
    else
      CleanupGroups(groups[..|groups| - 1]) +
      (if HasCleanup(groups[|groups| - 1]) then [groups[|groups| - 1]] else [])
  }

  function SubjectOf(g: Group): Id {
    if g == [] then NO_ID else g[0].subject
  }

  function SubjectsOf(groups: seq<Group>): set<Id> {
    set g | g in groups :: SubjectOf(g)
  }

  function GroupsOutside(groups: seq<Group>, subjects: set<Id>): seq<Group>
    decreases |groups|
  {
    if groups == [] then []
    else
      GroupsOutside(groups[..|groups| - 1], subjects) +
      (if SubjectOf(groups[|groups| - 1]) !in subjects then [groups[|groups| - 1]] else [])
  }

  lemma {:induction false} CleanupGroupsAre(groups: seq<Group>)
    ensures forall g :: g in CleanupGroups(groups) <==> g in groups && HasCleanup(g)
    decreases |groups|
  {
    if groups != [] {
      SplitLast(groups);
      CleanupGroupsAre(groups[..|groups| - 1]);
    }
  }

  /** subjects tells cleanup groups from the others. */
  ghost predicate Separates(groups: seq<Group>, subjects: set<Id>) {
    forall g :: g in groups ==> (SubjectOf(g) in subjects <==> HasCleanup(g))
  }

  lemma {:induction false} SplitsByCleanup(groups: seq<Group>, subjects: set<Id>)
    requires Separates(groups, subjects)
    ensures multiset(CleanupGroups(groups)) + multiset(GroupsOutside(groups, subjects)) == multiset(groups)
    ensures forall g :: g in GroupsOutside(groups, subjects) ==> !HasCleanup(g)
    decreases |groups|
  {
    if groups != [] {
      SplitLast(groups);
      var rest, g := groups[..|groups| - 1], groups[|groups| - 1];
      assert g in groups;
      assert Separates(rest, subjects);
      SplitsByCleanup(rest, subjects);
      assert multiset(rest + [g]) == multiset(rest) + multiset{g};
      if HasCleanup(g) {
        assert CleanupGroups(groups) == CleanupGroups(rest) + [g];
        assert GroupsOutside(groups, subjects) == GroupsOutside(rest, subjects);
        SwapLast(multiset(CleanupGroups(rest)), multiset{g}, multiset(GroupsOutside(rest, subjects)));
      } else {
        assert CleanupGroups(groups) == CleanupGroups(rest);
        AppendOne(multiset(CleanupGroups(rest)), GroupsOutside(rest, subjects), g);
      }
    }
  }

  lemma SubjectsSeparate(items: seq<Item>, groups: seq<Group>)
    requires ScopeGroups(items, multiset(groups))
    ensures Separates(groups, SubjectsOf(CleanupGroups(groups)))
  {
    CleanupGroupsAre(groups);
    var subjects := SubjectsOf(CleanupGroups(groups));
    forall g: Group | g in groups ensures SubjectOf(g) in subjects <==> HasCleanup(g) {
      assert g in multiset(groups) && IsScope(items, g);
      if SubjectOf(g) in subjects {
        var h: Group :| h in CleanupGroups(groups) && SubjectOf(h) == SubjectOf(g);
        assert h in multiset(groups) && IsScope(items, h);
      }
    }
  }

  /** Cleanup-bearing scopes come first; both parts are spread fairly. */
  ghost predicate Prioritized(s: seq<Group>, n: nat) {
    && n <= |s| && FairOrder(s[..n]) && FairOrder(s[n..])
    && (forall i :: 0 <= i < n ==> HasCleanup(s[i]))
    && (forall i :: n <= i < |s| ==> !HasCleanup(s[i]))
  }

  function GroupOrderOf(groups: seq<Group>): seq<Group> {
    SpreadOf(CleanupGroups(groups)) + SpreadOf(GroupsOutside(groups, SubjectsOf(CleanupGroups(groups))))
  }

  /** _inventory_group_order */
  method GroupOrder(groups: seq<Group>) returns (result: seq<Group>)
    ensures result == GroupOrderOf(groups)
  {
    var cleanup := CleanupGroups(groups);
    var remaining := GroupsOutside(groups, SubjectsOf(cleanup));
    var first := Spread(cleanup);
    var second := Spread(remaining);
    result := first + second;
  }

  /** The group order is a permutation with the cleanup scopes first, each part fair. */
  lemma GroupOrderIsPrioritized(items: seq<Item>, groups: seq<Group>)
    requires ScopeGroups(items, multiset(groups))
    ensures multiset(GroupOrderOf(groups)) == multiset(groups)
    ensures Prioritized(GroupOrderOf(groups), |CleanupGroups(groups)|)
  {
    var cleanup := CleanupGroups(groups);
    var remaining := GroupsOutside(groups, SubjectsOf(cleanup));
    SubjectsSeparate(items, groups);
    SplitsByCleanup(groups, SubjectsOf(cleanup));
    CleanupGroupsAre(groups);
    SpreadIsFair(cleanup);
    SpreadIsFair(remaining);
    SameLength(SpreadOf(cleanup), cleanup);
    OrderIsPrioritized(cleanup, remaining, SpreadOf(cleanup), SpreadOf(remaining));
  }

  lemma OrderIsPrioritized(cleanup: seq<Group>, remaining: seq<Group>, first: seq<Group>, second: seq<Group>)
    requires multiset(first) == multiset(cleanup) && multiset(second) == multiset(remaining)
    requires FairOrder(first) && FairOrder(second)
    requires (forall g :: g in cleanup ==> HasCleanup(g)) && forall g :: g in remaining ==> !HasCleanup(g)
    ensures Prioritized(first + second, |first|)
  {
    var s := first + second;
    assert s[..|first|] == first && s[|first|..] == second;
    forall i | 0 <= i < |first| ensures HasCleanup(s[i]) {
      assert first[i] in multiset(first);
      assert first[i] in cleanup;
    }
    forall i | |first| <= i < |s| ensures !HasCleanup(s[i]) {
      assert second[i - |first|] in multiset(second);
      assert second[i - |first|] in remaining;
    }
  }
}
