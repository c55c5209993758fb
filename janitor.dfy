/** The body of `run`: validate the inputs, list every cache page by page,
    add up the sizes, sort largest first, then walk the sorted list deleting
    what the age and size criteria select. The clock (`now`, in ms), the
    listing service (`responses`) and the delete service (`deleteOk`) are
    parameters. */
module Janitor {
  import opened Wrappers
  import opened Duration
  import opened SizeParser
  import opened Caches
  import opened SizeOrder
  import opened Fetch
  import opened Eviction
  import opened Config

  /** How a run ends: refused by `core.setFailed` with a message; stopped
      after a failed listing call (which only logs); or completed, with the
      listing calls, the delete calls and the final running total. */
  datatype RunOutcome =
    | ConfigFailed(message: string)
    | Aborted(listCalls: seq<ListCall>)
    | Completed(listCalls: seq<ListCall>, deleteCalls: seq<DeleteCall>, finalTotal: int)

  /** The eviction settings: `maxDate` is `now - maxAge * 1000`, in ms. */
  function PolicyOf(settings: Settings, now: int): (p: Policy)
    ensures p.maxDate <= now && now - p.maxDate == settings.maxAge * 1000
    ensures p.accessed == settings.accessed && p.created == settings.created
    ensures p.maxTotalSize == settings.maxTotalSize
  {
    Policy(settings.accessed, settings.created, now - settings.maxAge * 1000, settings.maxTotalSize)
  }

  /** The run as a composition of the specifications of its stages. */
  function RunSpec(inputs: Inputs, now: int, responses: seq<PageResponse>, deleteOk: nat -> bool): RunOutcome {
    match ParseConfig(inputs)
    case Failure(message) => ConfigFailed(message)
    case Success(settings) =>
      match FetchFrom(responses, 1)
      case FetchFailed(calls) => Aborted(calls)
      case Fetched(calls, results) =>
        var pass := Evict(PolicyOf(settings, now), deleteOk, Pass([], SumSizes(results)), SortBySize(results));
        Completed(calls, pass.calls, pass.total)
  }

  method Run(inputs: Inputs, now: int, responses: seq<PageResponse>, deleteOk: nat -> bool)
    returns (outcome: RunOutcome)
    ensures outcome == RunSpec(inputs, now, responses, deleteOk)
  {
    var config := ParseConfig(inputs);
    if config.Failure? {
      return ConfigFailed(config.error);
    }
    var policy := PolicyOf(config.value, now);
    var fetched := FetchCaches(responses);
    if fetched.FetchFailed? {
      return Aborted(fetched.calls);
    }
    var results := fetched.results;
    var totalSize := TotalSize(results);
    var sorted := new Cache[|results|](i requires 0 <= i < |results| => results[i]);
    assert sorted[..] == results;
    SortInPlace(sorted);
    var calls, total := EvictPass(policy, deleteOk, sorted, totalSize);
    return Completed(fetched.calls, calls, total);
  }

  /** Whatever the inputs and services do, a completed run lists pages 1, 2, …
      (at most 100); makes its delete calls, in order, for listed entries at
      strictly increasing positions of the size order, each with an id and
      both timestamps, so at most one call per entry; and ends with the
      running total equal to the size of the entries whose deletion did not
      succeed. */
  lemma RunCompleted(inputs: Inputs, now: int, responses: seq<PageResponse>, deleteOk: nat -> bool)
    returns (idx: seq<nat>)
    requires RunSpec(inputs, now, responses, deleteOk).Completed?
    ensures var o := RunSpec(inputs, now, responses, deleteOk);
      var results := FetchFrom(responses, 1).results;
      var sorted := SortBySize(results);
      && 1 <= |o.listCalls| <= MaxPages
      && (forall k :: 0 <= k < |o.listCalls| ==> o.listCalls[k] == ListCall(PerPage, k + 1))
      && |o.deleteCalls| == |idx| <= |results|
      && Increasing(idx)
      && (forall k :: 0 <= k < |idx| ==>
            idx[k] < |sorted| && Actionable(sorted[idx[k]]) && o.deleteCalls[k] == DeleteCall(sorted[idx[k]].id.value))
      && o.finalTotal >= 0
      && o.finalTotal == SumSizes(Remaining(PolicyOf(ParseConfig(inputs).value, now), deleteOk,
                                            Pass([], SumSizes(results)), sorted))
  {
    var results := FetchFrom(responses, 1).results;
    var policy := PolicyOf(ParseConfig(inputs).value, now);
    FetchCachesShape(responses);
    SortBySizeTotal(results);
    SortBySizePermutes(results);
    assert |SortBySize(results)| == |results| by {
      assert |multiset(SortBySize(results))| == |multiset(results)|;
    }
    idx := EvictCallsFromEntries(policy, deleteOk, Pass([], SumSizes(results)), SortBySize(results));
    TotalTracksRemaining(policy, deleteOk, SortBySize(results));
  }

  /** With both age criteria off, a size budget, entries that all carry an id
      and both timestamps, and every delete succeeding, a completed run
      deletes the largest entries first and stops as soon as the total is
      within the budget: the deletions are a prefix of the size order, and
      one fewer would have left the total over the budget. */
  lemma RunBudget(inputs: Inputs, now: int, responses: seq<PageResponse>) returns (k: nat)
    requires inputs.accessed != "true" && inputs.created != "true" && inputs.maxTotalSize != ""
    requires RunSpec(inputs, now, responses, AllSucceed).Completed?
    requires forall j :: 0 <= j < |FetchFrom(responses, 1).results| ==> Actionable(FetchFrom(responses, 1).results[j])
    ensures var o := RunSpec(inputs, now, responses, AllSucceed);
      var sorted := SortBySize(FetchFrom(responses, 1).results);
      && k <= |sorted|
      && (forall j :: 0 <= j < |sorted| ==> Actionable(sorted[j]))
      && o.deleteCalls == Ids(sorted[..k])
      && o.finalTotal == SumSizes(sorted[k..])
      && SumSizes(sorted[k..]) as real <= ParseSize(inputs.maxTotalSize).value
      && (k > 0 ==> SumSizes(sorted[k - 1..]) as real > ParseSize(inputs.maxTotalSize).value)
  {
    var settings := ParseConfig(inputs).value;
    var results := FetchFrom(responses, 1).results;
    var sorted := SortBySize(results);
    var policy := PolicyOf(settings, now);
    SortedActionable(results);
    SortBySizeTotal(results);
    ParseSizeNonNegative(inputs.maxTotalSize);
    assert policy.maxTotalSize == Some(ParseSize(inputs.maxTotalSize).value);
    k := BudgetPrefix(policy, sorted);
    var pass := Evict(policy, AllSucceed, Pass([], SumSizes(results)), sorted);
    assert RunSpec(inputs, now, responses, AllSucceed) == Completed(FetchFrom(responses, 1).calls, pass.calls, pass.total);
  }

  /** Sorting keeps the property that every entry has an id and both timestamps. */
  lemma SortedActionable(results: seq<Cache>)
    requires forall j :: 0 <= j < |results| ==> Actionable(results[j])
    ensures forall j :: 0 <= j < |SortBySize(results)| ==> Actionable(SortBySize(results)[j])
  {
    var sorted := SortBySize(results);
    SortBySizePermutes(results);
    forall j | 0 <= j < |sorted|
      ensures Actionable(sorted[j])
    {
      assert sorted[j] in multiset(results);
      var i :| 0 <= i < |results| && results[i] == sorted[j];
    }
  }

  /** The repository's end-to-end test: with a 7-day age limit on both
      timestamps and a 1 GB budget, an old 500 MB entry and a fresh 600 MB
      one are listed on page 1 and page 2 is empty. The fresh one is deleted
      first, because the 1100 MB total exceeds the budget; the old one next,
      for its age. `now` is any instant more than 7 days after the old
      entry's timestamps, which is also the fresh entry's timestamps. */
  lemma AgeAndSizeScenario(now: int)
    requires now > 1672531200000 + 604800 * 1000
    ensures
      var inputs := Inputs("true", "7d", "1GB", "true", "true", "fake-token");
      var cache1 := Cache(Some(1), Some("cache1"), Some(1672531200000), Some(1672531200000), Some(500 * 1024 * 1024));
      var cache2 := Cache(Some(2), Some("cache2"), Some(now), Some(now), Some(600 * 1024 * 1024));
      RunSpec(inputs, now, [Listed([cache1, cache2])], AllSucceed)
        == Completed([ListCall(100, 1), ListCall(100, 2)], [DeleteCall(2), DeleteCall(1)], 0)
  {
    var settings := ScenarioSettings();
    var cache1 := Cache(Some(1), Some("cache1"), Some(1672531200000), Some(1672531200000), Some(500 * 1024 * 1024));
    var cache2 := Cache(Some(2), Some("cache2"), Some(now), Some(now), Some(600 * 1024 * 1024));
    TwoEntryRun(Inputs("true", "7d", "1GB", "true", "true", "fake-token"), now, settings, cache1, cache2);
  }

  /** The inputs of the end-to-end test validate to a 7-day age limit on both
      timestamps and a 1 GB budget. */
  lemma ScenarioSettings() returns (settings: Settings)
    ensures settings == Settings(true, 604800, Some(1073741824.0), true, true, "fake-token")
    ensures ParseConfig(Inputs("true", "7d", "1GB", "true", "true", "fake-token")) == Success(settings)
  {
    TimeExamples();
    GigabyteExample();
    settings := Settings(true, 604800, Some(1073741824.0), true, true, "fake-token");
  }

  /** One listed page holding a stale entry and a larger one whose sizes
      together exceed the budget: the larger one is deleted first, for the
      budget, then the stale one; nothing is left. */
  lemma TwoEntryRun(inputs: Inputs, now: int, settings: Settings, small: Cache, large: Cache)
    requires ParseConfig(inputs) == Success(settings)
    requires settings.maxTotalSize.Some?
    requires Actionable(small) && Actionable(large) && SizeOf(small) < SizeOf(large)
    requires Stale(PolicyOf(settings, now), small)
    requires (SizeOf(small) + SizeOf(large)) as real > settings.maxTotalSize.value
    ensures RunSpec(inputs, now, [Listed([small, large])], AllSucceed)
      == Completed([ListCall(100, 1), ListCall(100, 2)], [DeleteCall(large.id.value), DeleteCall(small.id.value)], 0)
  {
    ScenarioListing(small, large);
    TwoEntryEviction(PolicyOf(settings, now), small, large);
    CompletedRun(inputs, now, [Listed([small, large])], AllSucceed, settings,
      [ListCall(100, 1), ListCall(100, 2)], [small, large]);
  }

  /** A run whose inputs validate and whose listing succeeds is the eviction
      pass over the sorted listing, from the sum of its sizes. */
  lemma CompletedRun(inputs: Inputs, now: int, responses: seq<PageResponse>, deleteOk: nat -> bool,
                     settings: Settings, calls: seq<ListCall>, results: seq<Cache>)
    requires ParseConfig(inputs) == Success(settings)
    requires FetchFrom(responses, 1) == Fetched(calls, results)
    ensures var pass := Evict(PolicyOf(settings, now), deleteOk, Pass([], SumSizes(results)), SortBySize(results));
      RunSpec(inputs, now, responses, deleteOk) == Completed(calls, pass.calls, pass.total)
  {
  }

  /** A single nonempty page: page 1 is listed, page 2 is empty. */
  lemma ScenarioListing(small: Cache, large: Cache)
    ensures FetchFrom([Listed([small, large])], 1) == Fetched([ListCall(100, 1), ListCall(100, 2)], [small, large])
  {
    assert FetchFrom([Listed([small, large])], 2) == Fetched([ListCall(100, 2)], []);
  }

  /** The pass over the two entries, larger first. */
  lemma TwoEntryEviction(p: Policy, small: Cache, large: Cache)
    requires p.maxTotalSize.Some?
    requires Actionable(small) && Actionable(large) && SizeOf(small) < SizeOf(large)
    requires Stale(p, small)
    requires (SizeOf(small) + SizeOf(large)) as real > p.maxTotalSize.value
    ensures Evict(p, AllSucceed, Pass([], SumSizes([small, large])), SortBySize([small, large]))
      == Pass([DeleteCall(large.id.value), DeleteCall(small.id.value)], 0)
  {
    ScenarioOrder(small, large);
    var start := Pass([], SizeOf(small) + SizeOf(large));
    assert [large][..0] == [];
    assert Evict(p, AllSucceed, start, [large]) == Pass([DeleteCall(large.id.value)], SizeOf(small));
    assert [large, small][..1] == [large];
  }

  lemma ScenarioOrder(small: Cache, large: Cache)
    requires SizeOf(small) < SizeOf(large)
    ensures SortBySize([small, large]) == [large, small]
    ensures SumSizes([small, large]) == SizeOf(small) + SizeOf(large)
  {
    assert [small, large][..1] == [small];
    assert [small][..0] == [];
    assert SortBySize([small]) == [small];
    assert SumSizes([small]) == SizeOf(small);
    assert Insert([small], large) == Insert([], large) + [small];
  }

  /** The repository's listing-failure test: the first listing call fails,
      so the run stops after it, with no delete call and no failure status. */
  lemma ListingFailureScenario(now: int, deleteOk: nat -> bool)
    ensures RunSpec(Inputs("", "7d", "", "", "", "fake-token"), now, [ListFailed], deleteOk)
      == Aborted([ListCall(100, 1)])
  {
    TimeExamples();
    assert ParseConfig(Inputs("", "7d", "", "", "", "fake-token")).Success?;
  }

  /** The repository's debug test: no budget and an empty first page, so one
      listing call, nothing deleted and a total of 0. */
  lemma NoCachesScenario(now: int, deleteOk: nat -> bool)
    ensures RunSpec(Inputs("true", "7d", "", "", "", "fake-token"), now, [Listed([])], deleteOk)
      == Completed([ListCall(100, 1)], [], 0)
  {
    TimeExamples();
    assert ParseConfig(Inputs("true", "7d", "", "", "", "fake-token")).Success?;
  }

  /** Missing required inputs stop the run before anything is listed. */
  lemma MissingInputScenarios(responses: seq<PageResponse>, now: int, deleteOk: nat -> bool)
    ensures RunSpec(Inputs("", "", "", "", "", "fake-token"), now, responses, deleteOk)
      == ConfigFailed("Input 'max-age' is required and cannot be empty.")
    ensures RunSpec(Inputs("", "7d", "", "", "", ""), now, responses, deleteOk)
      == ConfigFailed("Input 'token' is required and cannot be empty.")
  {
  }
}
