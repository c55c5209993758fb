/** The eviction pass over the size-ordered entries. An entry is considered
    only when its id and both timestamps are present; it is deleted when it
    was last accessed (or created) before the cut-off date and that criterion
    is switched on, or when the running total still exceeds the size budget.
    The running total drops by an entry's size only once its delete call
    succeeded. Timestamps are milliseconds since the epoch, already parsed;
    whether a delete call succeeds is given by `deleteOk`, asked with the
    number of delete calls made before it. */
module Eviction {
  import opened Wrappers
  import opened Caches

  /** The settings the pass reads: the two age criteria, the cut-off date
      (ms), and the size budget (None when unset, i.e. `Infinity`). */
  datatype Policy = Policy(accessed: bool, created: bool, maxDate: int, maxTotalSize: Option<real>)

  /** The arguments of one `deleteActionsCacheById` call that vary. */
  datatype DeleteCall = DeleteCall(cacheId: int)

  /** The state of the pass: the delete calls made so far and `totalSize`. */
  datatype Pass = Pass(calls: seq<DeleteCall>, total: int)

  predicate Actionable(c: Cache) {
    c.lastAccessedAt.Some? && c.createdAt.Some? && c.id.Some?
  }

  /** The age criteria: one of the switched-on timestamps lies before the cut-off. */
  predicate Stale(p: Policy, c: Cache)
    requires Actionable(c)
  {
    (p.accessed && c.lastAccessedAt.value < p.maxDate) || (p.created && c.createdAt.value < p.maxDate)
  }

  /** The size criterion: `totalSize > maxTotalSize`. */
  predicate OverBudget(p: Policy, total: int) {
    p.maxTotalSize.Some? && total as real > p.maxTotalSize.value
  }

  predicate Selects(p: Policy, total: int, c: Cache) {
    Actionable(c) && (Stale(p, c) || OverBudget(p, total))
  }

  /** Delete services whose calls all succeed, or all fail. */
  function AllSucceed(n: nat): bool { true }
  function AllFail(n: nat): bool { false }

  /** One iteration of the `for … of` loop: a call is added exactly when the
      entry is selected, naming its id, and the total drops by the entry's
      size exactly when that call succeeds. */
  function Step(p: Policy, deleteOk: nat -> bool, s: Pass, c: Cache): (r: Pass)
    ensures s.calls <= r.calls
    ensures |r.calls| == |s.calls| + (if Selects(p, s.total, c) then 1 else 0)
    ensures Selects(p, s.total, c) ==> r.calls[|s.calls|] == DeleteCall(c.id.value)
    ensures r.total == if Removes(p, deleteOk, s, c) then s.total - SizeOf(c) else s.total
  {
    if Selects(p, s.total, c) then
      var ok := deleteOk(|s.calls|);
      Pass(s.calls + [DeleteCall(c.id.value)], if ok then s.total - SizeOf(c) else s.total)
    else s
  }

  /** The whole loop over `cs`, from state `s`: it only adds calls, at most
      as many as there are entries, and never raises the total. */
  function Evict(p: Policy, deleteOk: nat -> bool, s: Pass, cs: seq<Cache>): (r: Pass)
    ensures s.calls <= r.calls && |r.calls| <= |s.calls| + |cs|
    ensures r.total <= s.total
  {
    if cs == [] then s else Step(p, deleteOk, Evict(p, deleteOk, s, cs[..|cs| - 1]), cs[|cs| - 1])
  }

  /** Whether the pass, in state `s`, deletes `c` successfully. */
  predicate Removes(p: Policy, deleteOk: nat -> bool, s: Pass, c: Cache) {
    Selects(p, s.total, c) && deleteOk(|s.calls|)
  }

  /** The entries whose delete call succeeded, in the order of `cs`. */
  function Removed(p: Policy, deleteOk: nat -> bool, s: Pass, cs: seq<Cache>): seq<Cache> {
    if cs == [] then []
    else
      var c := cs[|cs| - 1];
      Removed(p, deleteOk, s, cs[..|cs| - 1])
        + (if Removes(p, deleteOk, Evict(p, deleteOk, s, cs[..|cs| - 1]), c) then [c] else [])
  }

  /** The other entries: those still present after the pass. */
  function Remaining(p: Policy, deleteOk: nat -> bool, s: Pass, cs: seq<Cache>): seq<Cache> {
    if cs == [] then []
    else
      var c := cs[|cs| - 1];
      Remaining(p, deleteOk, s, cs[..|cs| - 1])
        + (if Removes(p, deleteOk, Evict(p, deleteOk, s, cs[..|cs| - 1]), c) then [] else [c])
  }

  /** The loop itself, over the sorted array. */
  method EvictPass(p: Policy, deleteOk: nat -> bool, results: array<Cache>, totalSize: int)
    returns (calls: seq<DeleteCall>, total: int)
    ensures Pass(calls, total) == Evict(p, deleteOk, Pass([], totalSize), results[..])
  {
    calls, total := [], totalSize;
    for i := 0 to results.Length
      invariant Pass(calls, total) == Evict(p, deleteOk, Pass([], totalSize), results[..i])
    {
      var cache := results[i];
      assert results[..i + 1][..i] == results[..i];
      if Actionable(cache) {
        var accessedCondition := p.accessed && cache.lastAccessedAt.value < p.maxDate;
        var createdCondition := p.created && cache.createdAt.value < p.maxDate;
        var sizeCondition := p.maxTotalSize.Some? && total as real > p.maxTotalSize.value;
        if accessedCondition || createdCondition || sizeCondition {
          var ok := deleteOk(|calls|);
          calls := calls + [DeleteCall(cache.id.value)];
          if ok {
            total := total - SizeOf(cache);
          }
        }
      }
    }
    assert results[..results.Length] == results[..];
  }

  /** The running-total invariant: the total is the starting total less the
      sizes of exactly the entries whose delete call succeeded. */
  lemma {:induction false} EvictTotal(p: Policy, deleteOk: nat -> bool, s: Pass, cs: seq<Cache>)
    ensures Evict(p, deleteOk, s, cs).total == s.total - SumSizes(Removed(p, deleteOk, s, cs))
  {
    if cs != [] {
      var init, c := cs[..|cs| - 1], cs[|cs| - 1];
      EvictTotal(p, deleteOk, s, init);
      var before := Evict(p, deleteOk, s, init);
      SumSizesAppend(Removed(p, deleteOk, s, init), if Removes(p, deleteOk, before, c) then [c] else []);
      assert SumSizes([c]) == SizeOf(c) by {
        assert [c][..0] == [];
      }
    }
  }

  /** Every entry is either removed or remaining. */
  lemma {:induction false} RemovedAndRemaining(p: Policy, deleteOk: nat -> bool, s: Pass, cs: seq<Cache>)
    ensures multiset(Removed(p, deleteOk, s, cs)) + multiset(Remaining(p, deleteOk, s, cs)) == multiset(cs)
  {
    if cs != [] {
      var init, c := cs[..|cs| - 1], cs[|cs| - 1];
      SplitLast(cs);
      RemovedAndRemaining(p, deleteOk, s, init);
      var gone := Removes(p, deleteOk, Evict(p, deleteOk, s, init), c);
      var removed, remaining := Removed(p, deleteOk, s, init), Remaining(p, deleteOk, s, init);
      var removed', remaining' := Removed(p, deleteOk, s, cs), Remaining(p, deleteOk, s, cs);
      assert removed' == removed + (if gone then [c] else []);
      assert remaining' == remaining + (if gone then [] else [c]);
      PartitionStep(removed, remaining, init, c, gone, removed', remaining', cs);
    }
  }

  /** One step of the partition: `removed` and `remaining` split `init`, and
      `removed'` and `remaining'` are them with `c` appended to the one that
      `gone` chooses; then they split `all`, which is `init + [c]`. */
  lemma PartitionStep(removed: seq<Cache>, remaining: seq<Cache>, init: seq<Cache>, c: Cache, gone: bool,
                       removed': seq<Cache>, remaining': seq<Cache>, all: seq<Cache>)
    requires multiset(removed) + multiset(remaining) == multiset(init)
    requires removed' == removed + (if gone then [c] else [])
    requires remaining' == remaining + (if gone then [] else [c])
    requires all == init + [c]
    ensures multiset(removed') + multiset(remaining') == multiset(all)
  {
  }

  /** So the sizes of the two parts add up to the size of all entries. */
  lemma {:induction false} RemovedAndRemainingSizes(p: Policy, deleteOk: nat -> bool, s: Pass, cs: seq<Cache>)
    ensures SumSizes(Removed(p, deleteOk, s, cs)) + SumSizes(Remaining(p, deleteOk, s, cs)) == SumSizes(cs)
  {
    if cs != [] {
      var init, c := cs[..|cs| - 1], cs[|cs| - 1];
      SplitLast(cs);
      RemovedAndRemainingSizes(p, deleteOk, s, init);
      var removed, remaining := Removed(p, deleteOk, s, init), Remaining(p, deleteOk, s, init);
      if Removes(p, deleteOk, Evict(p, deleteOk, s, init), c) {
        assert Removed(p, deleteOk, s, cs) == removed + [c];
        assert Remaining(p, deleteOk, s, cs) == remaining;
        SumSizesSnoc(removed, c);
      } else {
        assert Removed(p, deleteOk, s, cs) == removed;
        assert Remaining(p, deleteOk, s, cs) == remaining + [c];
        SumSizesSnoc(remaining, c);
      }
    }
  }

  lemma SumSizesSnoc(t: seq<Cache>, c: Cache)
    ensures SumSizes(t + [c]) == SumSizes(t) + SizeOf(c)
  {
    assert (t + [c])[..|t|] == t;
  }

  lemma SplitLast(cs: seq<Cache>)
    requires cs != []
    ensures cs == cs[..|cs| - 1] + [cs[|cs| - 1]]
  {
  }

  /** Started from the sum of all sizes, the total at the end is the size of
      the entries that remain, and so never negative. */
  lemma TotalTracksRemaining(p: Policy, deleteOk: nat -> bool, cs: seq<Cache>)
    ensures var r := Evict(p, deleteOk, Pass([], SumSizes(cs)), cs);
      r.total == SumSizes(Remaining(p, deleteOk, Pass([], SumSizes(cs)), cs)) && r.total >= 0
  {
    EvictTotal(p, deleteOk, Pass([], SumSizes(cs)), cs);
    RemovedAndRemainingSizes(p, deleteOk, Pass([], SumSizes(cs)), cs);
  }

  /** The positions in `idx` strictly increase. */
  ghost predicate Increasing(idx: seq<nat>) {
    forall k, l :: 0 <= k < l < |idx| ==> idx[k] < idx[l]
  }

  /** The positions in `cs` of the entries the pass selects, in order. */
  ghost function Positions(p: Policy, deleteOk: nat -> bool, s: Pass, cs: seq<Cache>): (idx: seq<nat>)
    ensures Increasing(idx)
    ensures forall k :: 0 <= k < |idx| ==> idx[k] < |cs|
  {
    if cs == [] then []
    else
      var init := cs[..|cs| - 1];
      Positions(p, deleteOk, s, init)
        + (if Selects(p, Evict(p, deleteOk, s, init).total, cs[|cs| - 1]) then [|cs| - 1] else [])
  }

  /** The calls after the first `|s.calls|` are made, one each, for the
      entries at `Positions`, and each names the id of its entry. */
  lemma {:induction false} PositionsCalls(p: Policy, deleteOk: nat -> bool, s: Pass, cs: seq<Cache>)
    ensures var idx, r := Positions(p, deleteOk, s, cs), Evict(p, deleteOk, s, cs);
      && |r.calls| == |s.calls| + |idx|
      && forall k :: 0 <= k < |idx| ==>
           Actionable(cs[idx[k]]) && r.calls[|s.calls| + k] == DeleteCall(cs[idx[k]].id.value)
  {
    if cs != [] {
      var init, c := cs[..|cs| - 1], cs[|cs| - 1];
      PositionsCalls(p, deleteOk, s, init);
      var idx0, before := Positions(p, deleteOk, s, init), Evict(p, deleteOk, s, init);
      var idx, after := Positions(p, deleteOk, s, cs), Evict(p, deleteOk, s, cs);
      assert after == Step(p, deleteOk, before, c);
      forall k | 0 <= k < |idx|
        ensures Actionable(cs[idx[k]]) && after.calls[|s.calls| + k] == DeleteCall(cs[idx[k]].id.value)
      {
        if k < |idx0| {
          assert idx[k] == idx0[k] && cs[idx[k]] == init[idx0[k]];
          assert after.calls[|s.calls| + k] == before.calls[|s.calls| + k];
        }
      }
    }
  }

  /** A position is in `Positions` exactly when its entry is selected in the
      state the pass has reached there. */
  lemma {:induction false} PositionsSelected(p: Policy, deleteOk: nat -> bool, s: Pass, cs: seq<Cache>)
    ensures forall j :: 0 <= j < |cs| ==>
      (j in Positions(p, deleteOk, s, cs) <==> Selects(p, Evict(p, deleteOk, s, cs[..j]).total, cs[j]))
  {
    if cs != [] {
      var init := cs[..|cs| - 1];
      PositionsSelected(p, deleteOk, s, init);
      var idx0 := Positions(p, deleteOk, s, init);
      forall j | 0 <= j < |cs| - 1
        ensures j in Positions(p, deleteOk, s, cs) <==> Selects(p, Evict(p, deleteOk, s, cs[..j]).total, cs[j])
      {
        assert cs[..j] == init[..j] && cs[j] == init[j];
        assert j in Positions(p, deleteOk, s, cs) <==> j in idx0;
      }
    }
  }

  /** Each delete call names the id of its own entry of `cs`: the calls after
      the first `|s.calls|` are made, in order, for the entries at the
      strictly increasing positions `idx`, each of which has an id and both
      timestamps. So there is at most one call per entry. The positions are
      exactly those of the entries the criteria select in the state the
      pass has reached there. */
  lemma EvictCallsFromEntries(p: Policy, deleteOk: nat -> bool, s: Pass, cs: seq<Cache>)
    returns (idx: seq<nat>)
    ensures s.calls <= Evict(p, deleteOk, s, cs).calls
    ensures |Evict(p, deleteOk, s, cs).calls| == |s.calls| + |idx| <= |s.calls| + |cs|
    ensures Increasing(idx)
    ensures forall k :: 0 <= k < |idx| ==>
      && idx[k] < |cs|
      && Actionable(cs[idx[k]])
      && Evict(p, deleteOk, s, cs).calls[|s.calls| + k] == DeleteCall(cs[idx[k]].id.value)
    ensures forall j :: 0 <= j < |cs| ==> (j in idx <==> Selects(p, Evict(p, deleteOk, s, cs[..j]).total, cs[j]))
  {
    idx := Positions(p, deleteOk, s, cs);
    PositionsCalls(p, deleteOk, s, cs);
    PositionsSelected(p, deleteOk, s, cs);
  }

  /** A failed delete leaves the total alone: if every delete fails the
      total never moves, whatever is selected. */
  lemma {:induction false} FailedDeletesKeepTotal(p: Policy, s: Pass, cs: seq<Cache>)
    ensures Evict(p, AllFail, s, cs).total == s.total
  {
    if cs != [] {
      FailedDeletesKeepTotal(p, s, cs[..|cs| - 1]);
    }
  }

  /** The ids of the entries the age criteria select, in order. */
  function StaleIds(p: Policy, cs: seq<Cache>): seq<DeleteCall> {
    if cs == [] then []
    else
      var c := cs[|cs| - 1];
      StaleIds(p, cs[..|cs| - 1]) + (if Actionable(c) && Stale(p, c) then [DeleteCall(c.id.value)] else [])
  }

  /** Without a size budget only the age criteria select, whatever the
      totals and the delete outcomes are. */
  lemma {:induction false} NoBudgetAgeOnly(p: Policy, deleteOk: nat -> bool, s: Pass, cs: seq<Cache>)
    requires p.maxTotalSize.None?
    ensures Evict(p, deleteOk, s, cs).calls == s.calls + StaleIds(p, cs)
  {
    if cs != [] {
      NoBudgetAgeOnly(p, deleteOk, s, cs[..|cs| - 1]);
    }
  }

  /** The ids of `cs`, one delete call each. */
  function Ids(cs: seq<Cache>): seq<DeleteCall>
    requires forall j :: 0 <= j < |cs| ==> Actionable(cs[j])
  {
    if cs == [] then []
    else
      assert Actionable(cs[|cs| - 1]);
      Ids(cs[..|cs| - 1]) + [DeleteCall(cs[|cs| - 1].id.value)]
  }

  lemma SumSizesFront(cs: seq<Cache>, i: nat)
    requires i < |cs|
    ensures SumSizes(cs[i..]) == SizeOf(cs[i]) + SumSizes(cs[i + 1..])
  {
    assert cs[i..] == [cs[i]] + cs[i + 1..];
    SumSizesAppend([cs[i]], cs[i + 1..]);
    assert [cs[i]][..0] == [];
  }

  /** One step of the budget-only pass from a state where the first `k`
      entries were deleted: it deletes entry `k` exactly while the total is
      still over budget. */
  lemma BudgetStep(p: Policy, cs: seq<Cache>, k: nat, i: nat)
    requires !p.accessed && !p.created && p.maxTotalSize.Some?
    requires forall j :: 0 <= j < |cs| ==> Actionable(cs[j])
    requires k <= i < |cs|
    requires k < i ==> SumSizes(cs[k..]) as real <= p.maxTotalSize.value
    ensures var s := Step(p, AllSucceed, Pass(Ids(cs[..k]), SumSizes(cs[k..])), cs[i]);
      if k == i && SumSizes(cs[k..]) as real > p.maxTotalSize.value
      then s == Pass(Ids(cs[..k + 1]), SumSizes(cs[k + 1..]))
      else s == Pass(Ids(cs[..k]), SumSizes(cs[k..]))
  {
    assert Actionable(cs[i]);
    if k == i && SumSizes(cs[k..]) as real > p.maxTotalSize.value {
      SumSizesFront(cs, k);
      assert cs[..k + 1][..k] == cs[..k];
    }
  }

  /** The budget criterion alone, with every delete succeeding, after the
      first `i` entries: the deleted entries are a prefix `cs[..k]`, the
      total is the size of the rest, each deletion was made while the total
      was over budget, and once the pass stops deleting the total is within it. */
  lemma {:induction false} BudgetPrefixUpTo(p: Policy, cs: seq<Cache>, i: nat) returns (k: nat)
    requires !p.accessed && !p.created && p.maxTotalSize.Some?
    requires forall j :: 0 <= j < |cs| ==> Actionable(cs[j])
    requires i <= |cs|
    ensures k <= i
    ensures Evict(p, AllSucceed, Pass([], SumSizes(cs)), cs[..i]) == Pass(Ids(cs[..k]), SumSizes(cs[k..]))
    ensures k < i ==> SumSizes(cs[k..]) as real <= p.maxTotalSize.value
    ensures k > 0 ==> SumSizes(cs[k - 1..]) as real > p.maxTotalSize.value
  {
    if i == 0 {
      k := 0;
      assert cs[0..] == cs;
    } else {
      var k' := BudgetPrefixUpTo(p, cs, i - 1);
      assert cs[..i][..i - 1] == cs[..i - 1];
      BudgetStep(p, cs, k', i - 1);
      if k' == i - 1 && SumSizes(cs[k'..]) as real > p.maxTotalSize.value {
        k := i;
      } else {
        k := k';
      }
    }
  }

  /** Greedy budget enforcement: with the age criteria off and every delete
      succeeding, the pass deletes a prefix of the entries in their order,
      ends within a non-negative budget, and deleting one entry fewer would
      have left the total over it. */
  lemma BudgetPrefix(p: Policy, cs: seq<Cache>) returns (k: nat)
    requires !p.accessed && !p.created && p.maxTotalSize.Some? && p.maxTotalSize.value >= 0.0
    requires forall j :: 0 <= j < |cs| ==> Actionable(cs[j])
    ensures k <= |cs|
    ensures Evict(p, AllSucceed, Pass([], SumSizes(cs)), cs) == Pass(Ids(cs[..k]), SumSizes(cs[k..]))
    ensures SumSizes(cs[k..]) as real <= p.maxTotalSize.value
    ensures k > 0 ==> SumSizes(cs[k - 1..]) as real > p.maxTotalSize.value
  {
    k := BudgetPrefixUpTo(p, cs, |cs|);
    assert cs[..|cs|] == cs;
    if k == |cs| {
      assert cs[k..] == [];
    }
  }
}
