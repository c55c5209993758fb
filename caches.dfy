/** The cache entries returned by the listing API, as far as the janitor
    looks at them, and the total size of a list of entries. */
module Caches {
  import opened Wrappers

  /** One entry of the listing. Every field may be absent. The timestamps
      are milliseconds since the epoch, already parsed from their ISO form. */
  datatype Cache = Cache(
    id: Option<int>,
    key: Option<string>,
    lastAccessedAt: Option<int>,
    createdAt: Option<int>,
    sizeInBytes: Option<nat>)

  /** `cache.size_in_bytes || 0`: an absent size counts as 0. */
  function SizeOf(c: Cache): nat {
    match c.sizeInBytes
    case Some(n) => n
    case None => 0
  }

  /** The sum of the sizes of `s`, absent sizes counting as 0. */
  function SumSizes(s: seq<Cache>): nat {
    if s == [] then 0 else SumSizes(s[..|s| - 1]) + SizeOf(s[|s| - 1])
  }

  /** The total of a concatenation is the sum of the totals. */
  lemma {:induction false} SumSizesAppend(a: seq<Cache>, b: seq<Cache>)
    ensures SumSizes(a + b) == SumSizes(a) + SumSizes(b)
  {
    if b != [] {
      assert (a + b)[..|a + b| - 1] == a + b[..|b| - 1];
      SumSizesAppend(a, b[..|b| - 1]);
    } else {
      assert a + b == a;
    }
  }

  /** The `forEach` that adds up `size_in_bytes` over the fetched entries. */
  method TotalSize(results: seq<Cache>) returns (totalSize: nat)
    ensures totalSize == SumSizes(results)
  {
    totalSize := 0;
    for i := 0 to |results|
      invariant totalSize == SumSizes(results[..i])
    {
      assert results[..i + 1][..i] == results[..i];
      totalSize := totalSize + SizeOf(results[i]);
    }
    assert results[..|results|] == results;
  }
}
