/** The selection of whole scopes under a count and a size limit (build_project_inventory,
    smartbench/engine/project_reader.py).  The length of a serialized pack is any function of its
    items and its trace. */
module InventorySelection {
  import opened Sequences
  import opened Multisets
  import opened Ir
  import opened ProjectReader
  import opened Inventory
  import opened InventoryOrder

  /** The retrieval trace: how many facts were selected, the character limit and the number of
      facts left out when characters were the limit, and the count limit when there are more facts. */
  datatype Trace = Trace(selected: nat, charLimit: Option<nat>, truncated: int, countLimit: Option<nat>)

  type SizeOf = (seq<Item>, Trace) -> nat

  datatype Pack = Pack(items: seq<Item>, trace: Trace)

  function Size(sizeOf: SizeOf, p: Pack): nat {
    sizeOf(p.items, p.trace)
  }

  /** The limits of one call, with the number of facts there are. */
  datatype Limits = Limits(count: nat, chars: nat, total: nat)

  function Gap(a: int, b: int): nat {
    if a <= b then b - a else a - b
  }

  /** max(low, min(value, high)): the value between the two that is nearest. */
  function Clamp(low: nat, value: int, high: nat): (r: nat)
    requires low <= high
    ensures low <= r <= high
    ensures forall k: nat :: low <= k <= high && k != r ==> Gap(r, value) < Gap(k, value)
  {
    var capped := if value < high then value else high;
    if capped < low then low else capped
  }

  function LimitsFor(maxFacts: int, maxChars: int, total: nat): (l: Limits)
    ensures 1 <= l.count <= 1000 && 1_000 <= l.chars <= 256_000
  {
    Limits(Clamp(1, maxFacts, 1000), Clamp(1_000, maxChars, 256_000), total)
  }

  /** make_trace */
  function TraceFor(l: Limits, selected: nat, characterLimited: bool): Trace {
    Trace(selected, if characterLimited then Some(l.chars) else None, if characterLimited then l.total - selected
    else 0,
          if l.total > l.count then Some(l.count) else None)
  }

  function SizingTrace(l: Limits): Trace {
    Trace(l.total, Some(l.chars), l.total, if l.total > l.count then Some(l.count) else None)
  }

  // ---------- the count limit ----------

  /** The scopes taken while only the count limit counts. */
  function GreedyCount(groups: seq<Group>, limit: nat): seq<Group>
    decreases |groups|
  {
    if groups == [] then []
    else
      var before, g := GreedyCount(groups[..|groups| - 1], limit), groups[|groups| - 1];
      if |Flatten(before)| + |g| <= limit then before + [g] else before
  }

  lemma FlattenOneMore(groups: seq<Group>, g: Group)
    ensures Flatten(groups + [g]) == Flatten(groups) + g
  {
    assert (groups + [g])[..|groups|] == groups;
  }

  method CountBounded(groups: seq<Group>, limit: nat) returns (items: seq<Item>)
    ensures items == Flatten(GreedyCount(groups, limit))
  {
    items := [];
    for i := 0 to |groups|
      invariant items == Flatten(GreedyCount(groups[..i], limit))
    {
      assert groups[..i + 1][..i] == groups[..i];
      FlattenOneMore(GreedyCount(groups[..i], limit), groups[i]);
      if |items| + |groups[i]| <= limit {
        items := items + groups[i];
      }
    }
    assert groups[..|groups|] == groups;
  }

  /** Within the limit, whole groups only, and no omitted group would still fit. */
  ghost predicate MaximalChoice(groups: seq<Group>, limit: nat, chosen: seq<Group>) {
    && |Flatten(chosen)| <= limit && multiset(chosen) <= multiset(groups)
    && forall g :: g in groups ==> g in chosen || |Flatten(chosen)| + |g| > limit
  }

  lemma ChoiceStep(rest: seq<Group>, limit: nat, before: seq<Group>, g: Group)
    requires MaximalChoice(rest, limit, before)
    ensures MaximalChoice(rest + [g], limit, if |Flatten(before)| + |g| <= limit then before + [g] else before)
  {
    FlattenOneMore(before, g);
    SubmultisetGrows(before, rest, g);
  }

  /** Taking scopes greedily under the count limit is maximal. */
  lemma {:induction false} GreedyCountIsMaximal(groups: seq<Group>, limit: nat)
    ensures MaximalChoice(groups, limit, GreedyCount(groups, limit))
    decreases |groups|
  {
    if groups != [] {
      SplitLast(groups);
      GreedyCountIsMaximal(groups[..|groups| - 1], limit);
      ChoiceStep(groups[..|groups| - 1], limit, GreedyCount(groups[..|groups| - 1], limit), groups[|groups| - 1]);
    }
  }

  // ---------- the character limit ----------

  /** The conservative cost of a scope: its own pack beyond the empty one, plus separators. */
  function CostOf(sizeOf: SizeOf, l: Limits, g: Group): nat {
    var alone, empty := sizeOf(g, SizingTrace(l)), sizeOf([], SizingTrace(l));
    (if alone > empty then alone - empty else 0) + 4
  }

  function Estimate(sizeOf: SizeOf, l: Limits, groups: seq<Group>): nat
    decreases |groups|
  {
    if groups == [] then sizeOf([], SizingTrace(l))
    else Estimate(sizeOf, l, groups[..|groups| - 1]) + CostOf(sizeOf, l, groups[|groups| - 1])
  }

  predicate Affordable(sizeOf: SizeOf, l: Limits, chosen: seq<Group>, g: Group) {
    |Flatten(chosen)| + |g| <= l.count && Estimate(sizeOf, l, chosen) + CostOf(sizeOf, l, g) <= l.chars
  }

  /** The scopes taken under both limits, by estimate. */
  function GreedySize(sizeOf: SizeOf, l: Limits, groups: seq<Group>): seq<Group>
    decreases |groups|
  {
    if groups == [] then []
    else
      var before, g := GreedySize(sizeOf, l, groups[..|groups| - 1]), groups[|groups| - 1];
      if Affordable(sizeOf, l, before, g) then before + [g] else before
  }

  method SizeBounded(sizeOf: SizeOf, l: Limits, groups: seq<Group>) returns (chosen: seq<Group>)
    ensures chosen == GreedySize(sizeOf, l, groups)
  {
    chosen := [];
    var count, estimate := 0, sizeOf([], SizingTrace(l));
    for i := 0 to |groups|
      invariant chosen == GreedySize(sizeOf, l, groups[..i])
      invariant count == |Flatten(chosen)| && estimate == Estimate(sizeOf, l, chosen)
    {
      assert groups[..i + 1][..i] == groups[..i];
      var cost := CostOf(sizeOf, l, groups[i]);
      assert (chosen + [groups[i]])[..|chosen|] == chosen;
      if count + |groups[i]| <= l.count && estimate + cost <= l.chars {
        chosen := chosen + [groups[i]];
        count := count + |groups[i]|;
        estimate := estimate + cost;
      }
    }
    assert groups[..|groups|] == groups;
  }

  ghost predicate AffordableChoice(sizeOf: SizeOf, l: Limits, groups: seq<Group>, chosen: seq<Group>) {
    && |Flatten(chosen)| <= l.count && multiset(chosen) <= multiset(groups)
    && (chosen != [] ==> Estimate(sizeOf, l, chosen) <= l.chars)
  }

  lemma AffordableStep(sizeOf: SizeOf, l: Limits, rest: seq<Group>, before: seq<Group>, g: Group)
    requires AffordableChoice(sizeOf, l, rest, before)
    ensures AffordableChoice(sizeOf, l, rest + [g], if Affordable(sizeOf, l, before, g) then before + [g] else before)
  {
    FlattenOneMore(before, g);
    SubmultisetGrows(before, rest, g);
    assert (before + [g])[..|before|] == before;
  }

  lemma {:induction false} GreedySizeKeepsLimits(sizeOf: SizeOf, l: Limits, groups: seq<Group>)
    ensures AffordableChoice(sizeOf, l, groups, GreedySize(sizeOf, l, groups))
    decreases |groups|
  {
    if groups != [] {
      SplitLast(groups);
      GreedySizeKeepsLimits(sizeOf, l, groups[..|groups| - 1]);
      AffordableStep(sizeOf, l, groups[..|groups| - 1], GreedySize(sizeOf, l, groups[..|groups| - 1]),
        groups[|groups| - 1]);
    }
  }

  // ---------- the final pack ----------

  function CharPack(l: Limits, chosen: seq<Group>): Pack {
    Pack(Flatten(chosen), TraceFor(l, |Flatten(chosen)|, true))
  }

  predicate Fits(sizeOf: SizeOf, l: Limits, chosen: seq<Group>) {
    Size(sizeOf, CharPack(l, chosen)) <= l.chars
  }

  /** The chosen scopes without the last ones, as many as it takes for the evidence pack to fit. */
  function FittingPrefix(sizeOf: SizeOf, l: Limits, chosen: seq<Group>): seq<Group>
    decreases |chosen|
  {
    if chosen == [] || Fits(sizeOf, l, chosen) then chosen else FittingPrefix(sizeOf, l, chosen[..|chosen| - 1])
  }

  /** n scopes make the longest prefix of the chosen ones whose pack fits, or n is 0. */
  ghost predicate LongestFitting(sizeOf: SizeOf, l: Limits, chosen: seq<Group>, n: nat) {
    && n <= |chosen| && (n > 0 ==> Fits(sizeOf, l, chosen[..n]))
    && forall k: nat :: n < k <= |chosen| ==> !Fits(sizeOf, l, chosen[..k])
  }

  /** The prefix kept is the longest one that fits, or empty. */
  lemma {:induction false} FittingPrefixIsLongest(sizeOf: SizeOf, l: Limits, chosen: seq<Group>) returns (n: nat)
    ensures LongestFitting(sizeOf, l, chosen, n) && FittingPrefix(sizeOf, l, chosen) == chosen[..n]
    decreases |chosen|
  {
    if chosen == [] || Fits(sizeOf, l, chosen) {
      n := |chosen|;
      assert chosen[..n] == chosen;
    } else {
      var shorter := chosen[..|chosen| - 1];
      n := FittingPrefixIsLongest(sizeOf, l, shorter);
      assert forall k: nat :: k <= |shorter| ==> shorter[..k] == chosen[..k];
      assert chosen[..|chosen|] == chosen;
    }
  }

  /** The loop that drops scopes from the end while the evidence pack is too long. */
  method PopUntilFits(sizeOf: SizeOf, l: Limits, chosen: seq<Group>) returns (p: Pack)
    ensures p == CharPack(l, FittingPrefix(sizeOf, l, chosen))
  {
    var kept := chosen;
    p := CharPack(l, kept);
    while kept != [] && Size(sizeOf, p) > l.chars
      invariant p == CharPack(l, kept) && FittingPrefix(sizeOf, l, kept) == FittingPrefix(sizeOf, l, chosen)
      decreases |kept|
    {
      kept := kept[..|kept| - 1];
      p := CharPack(l, kept);
    }
  }

  lemma {:induction false} PrefixIsShorter(chosen: seq<Group>, n: nat)
    requires n <= |chosen|
    ensures |Flatten(chosen[..n])| <= |Flatten(chosen)|
    decreases |chosen|
  {
    if n < |chosen| {
      PrefixIsShorter(chosen[..|chosen| - 1], n);
      assert chosen[..|chosen| - 1][..n] == chosen[..n];
    } else {
      assert chosen[..n] == chosen;
    }
  }

  function CountPack(l: Limits, counted: seq<Group>): Pack {
    Pack(Flatten(counted), TraceFor(l, |Flatten(counted)|, false))
  }

  /** The selected scopes: greedily by count when that fits, else greedily by estimated size, cut
      back until the evidence pack fits. */
  function SelectedScopes(sizeOf: SizeOf, l: Limits, ordered: seq<Group>): seq<Group> {
    if Size(sizeOf, CountPack(l, GreedyCount(ordered, l.count))) <= l.chars then GreedyCount(ordered, l.count)
    else FittingPrefix(sizeOf, l, GreedySize(sizeOf, l, ordered))
  }

  function SelectedPack(sizeOf: SizeOf, l: Limits, ordered: seq<Group>): Pack {
    var byCount := CountPack(l, GreedyCount(ordered, l.count));
    if Size(sizeOf, byCount) <= l.chars then byCount else CharPack(l, SelectedScopes(sizeOf, l, ordered))
  }

  /** Selection and packing for groups in their final order. */
  method SelectScopes(sizeOf: SizeOf, l: Limits, ordered: seq<Group>) returns (p: Pack)
    ensures p == SelectedPack(sizeOf, l, ordered)
  {
    var items := CountBounded(ordered, l.count);
    p := Pack(items, TraceFor(l, |items|, false));
    if Size(sizeOf, p) <= l.chars {
      return;
    }
    var chosen := SizeBounded(sizeOf, l, ordered);
    p := PopUntilFits(sizeOf, l, chosen);
  }

  /** What any selection keeps: both limits (or an empty pack), whole scopes only, and when only
      the count limit binds no omitted scope would still fit. */
  ghost predicate KeepsLimits(sizeOf: SizeOf, l: Limits, ordered: seq<Group>, p: Pack, selected: seq<Group>) {
    && p.items == Flatten(selected) && multiset(selected) <= multiset(ordered)
    && |p.items| <= l.count && (Size(sizeOf, p) <= l.chars || p.items == [])
    && (p.trace.charLimit.None? ==> MaximalChoice(ordered, l.count, selected))
  }

  lemma SelectionKeepsLimits(sizeOf: SizeOf, l: Limits, ordered: seq<Group>)
    ensures KeepsLimits(sizeOf, l, ordered, SelectedPack(sizeOf, l, ordered), SelectedScopes(sizeOf, l, ordered))
  {
    if Size(sizeOf, CountPack(l, GreedyCount(ordered, l.count))) <= l.chars {
      GreedyCountIsMaximal(ordered, l.count);
    } else {
      var chosen := GreedySize(sizeOf, l, ordered);
      var n := FittingPrefixIsLongest(sizeOf, l, chosen);
      GreedySizeKeepsLimits(sizeOf, l, ordered);
      PrefixKeepsLimits(sizeOf, l, ordered, chosen, n);
    }
  }

  lemma PrefixKeepsLimits(sizeOf: SizeOf, l: Limits, ordered: seq<Group>, chosen: seq<Group>, n: nat)
    requires AffordableChoice(sizeOf, l, ordered, chosen) && LongestFitting(sizeOf, l, chosen, n)
    ensures KeepsLimits(sizeOf, l, ordered, CharPack(l, chosen[..n]), chosen[..n])
  {
    PrefixIsSubmultiset(chosen, n);
    PrefixIsShorter(chosen, n);
  }

  // ---------- build_project_inventory ----------

  /** The evidence pack for all facts of an IR. */
  function InventoryPack(items: seq<Item>, sizeOf: SizeOf, maxFacts: int, maxChars: int): Pack {
    SelectedPack(sizeOf, LimitsFor(maxFacts, maxChars, |items|), GroupOrderOf(ScopesOf(items)))
  }

  /** build_project_inventory */
  method BuildInventory(ir: SemanticIR, fileOf: Op -> nat, factId: Op -> Id, sizeOf: SizeOf, maxFacts: int,
          maxChars: int)
    returns (p: Pack)
    ensures p ==
            InventoryPack(ItemsOf(OpsById(ir.operations), fileOf, factId, SortOps(ir.operations)), sizeOf, maxFacts,
              maxChars)
  {
    var items := CollectItems(ir, fileOf, factId);
    var groups := GroupByScope(items);
    var ordered := GroupOrder(groups);
    p := SelectScopes(sizeOf, LimitsFor(maxFacts, maxChars, |items|), ordered);
  }

  /** The inventory of a repository: at most the clamped number of facts, within the clamped
      length or empty, every function scope entirely or not at all; and when only the count limit
      binds, every scope left out is too large for the room that remains. */
  lemma InventoryIsBoundedAndWhole(items: seq<Item>, sizeOf: SizeOf, maxFacts: int, maxChars: int, p: Pack)
    requires p == InventoryPack(items, sizeOf, maxFacts, maxChars)
    ensures |p.items| <= 1000 && (1 <= maxFacts ==> |p.items| <= maxFacts)
    ensures p.items == [] || (Size(sizeOf, p) <= 256_000 && (1_000 <= maxChars ==> Size(sizeOf, p) <= maxChars))
    ensures WholeScopes(items, p.items)
    ensures p.trace.charLimit.None? ==> forall x :: x in items ==>
              OfSubject(p.items, x.subject) == OfSubject(items, x.subject) ||
              |p.items| + |OfSubject(items, x.subject)| > LimitsFor(maxFacts, maxChars, |items|).count
  {
    var l, groups := LimitsFor(maxFacts, maxChars, |items|), ScopesOf(items);
    var ordered := GroupOrderOf(groups);
    var selected := SelectedScopes(sizeOf, l, ordered);
    SelectionKeepsLimits(sizeOf, l, ordered);
    assert KeepsLimits(sizeOf, l, ordered, p, selected);
    ScopesAreWhole(items);
    GroupOrderIsPrioritized(items, groups);
    FewerGroups(items, multiset(selected), multiset(groups));
    FlattenKeepsScopesWhole(items, selected);
    forall x | p.trace.charLimit.None? && x in items
      ensures OfSubject(p.items, x.subject) == OfSubject(items, x.subject) ||
              |p.items| + |OfSubject(items, x.subject)| > l.count
    {
      OmittedDoesNotFit(items, groups, selected, x.subject);
    }
  }

  lemma OmittedDoesNotFit(items: seq<Item>, groups: seq<Group>, selected: seq<Group>, subject: Id)
    requires OfSubject(items, subject) in groups && multiset(GroupOrderOf(groups)) == multiset(groups)
    requires ScopeGroups(items, multiset(selected))
    ensures OfSubject(items, subject) in GroupOrderOf(groups)
    ensures OfSubject(items, subject) in selected ==> OfSubject(Flatten(selected), subject) == OfSubject(items, subject)
  {
    assert OfSubject(items, subject) in multiset(groups);
    assert OfSubject(items, subject) in multiset(GroupOrderOf(groups));
    FlattenedSubject(items, selected, subject);
  }

  // ---------- what the trace tells ----------

  /** The pack chosen by count alone, which is kept when it is short enough. */
  function ByCount(items: seq<Item>, l: Limits): Pack {
    CountPack(l, GreedyCount(GroupOrderOf(ScopesOf(items)), l.count))
  }

  /** The limits are the allowed ones nearest to those asked for, and the trace tells what was selected and left
      out: the characters are the limit exactly when the pack chosen
      by count alone is too long, the facts left out are then counted, and the count limit is told exactly when
      there are more facts than it allows. */
  lemma TraceTells(items: seq<Item>, sizeOf: SizeOf, maxFacts: int, maxChars: int, p: Pack)
    requires p == InventoryPack(items, sizeOf, maxFacts, maxChars)
    ensures var l := LimitsFor(maxFacts, maxChars, |items|);
            && (forall k: nat :: 1 <= k <= 1000 && k != l.count ==> Gap(l.count, maxFacts) < Gap(k, maxFacts))
            && (forall k: nat :: 1_000 <= k <= 256_000 && k != l.chars ==> Gap(l.chars, maxChars) < Gap(k, maxChars))
            && p.trace.selected == |p.items|
            && (p.trace.charLimit == Some(l.chars) <==> Size(sizeOf, ByCount(items, l)) > l.chars)
            && (p.trace.charLimit.None? <==> Size(sizeOf, ByCount(items, l)) <= l.chars)
            && p.trace.truncated == (if p.trace.charLimit.Some? then |items| - |p.items| else 0)
            && (p.trace.countLimit == Some(l.count) <==> |items| > l.count)
            && (p.trace.countLimit.None? <==> |items| <= l.count)
  {
    var l := LimitsFor(maxFacts, maxChars, |items|);
    assert l.total == |items|;
  }

  /** One scope more makes a pack longer by at most its own length and four characters. */
  ghost predicate Additive(sizeOf: SizeOf, trace: Trace) {
    forall a: seq<Item>, g: Group ::
      sizeOf(a + g, trace) <= sizeOf(a, trace) + Above(sizeOf(g, trace), sizeOf([], trace)) + 4
  }

  function Above(a: nat, b: nat): nat {
    if a > b then a - b else 0
  }

  /** Then the estimate is conservative: no pack of the scopes is longer. */
  lemma {:induction false} EstimateIsConservative(sizeOf: SizeOf, l: Limits, groups: seq<Group>)
    requires Additive(sizeOf, SizingTrace(l))
    ensures sizeOf(Flatten(groups), SizingTrace(l)) <= Estimate(sizeOf, l, groups)
    decreases |groups|
  {
    if groups != [] {
      EstimateIsConservative(sizeOf, l, groups[..|groups| - 1]);
    }
  }
}
