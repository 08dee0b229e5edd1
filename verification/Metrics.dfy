/** The control plane's Prometheus text: cluster totals, the request-duration histogram and
the rows of each worker pool. */
module Metrics {
  import opened Text

  const U64_SPAN: nat := 0x1_0000_0000_0000_0000
  const U64_MAX: nat := U64_SPAN - 1
  const BUCKETS: nat := 11

  type u64 = n: nat | n < 0x1_0000_0000_0000_0000

  datatype Worker = Worker(
    pool: Option<string>,
    requests: u64,
    errors: u64,
    activeRequests: u64,
    lag: u64,
    lagMax: u64,
    lagTotal: u64,
    lagSamples: u64,
    residentMemory: u64,
    phpMemory: u64,
    buckets: seq<u64>)

  function PoolName(w: Worker): string {
    if w.pool.None? then "default" else w.pool.value
  }

  // ----- saturating sums -----

  function SaturatingAdd(a: u64, b: u64): u64 {
    if a + b > U64_MAX then U64_MAX else a + b
  }

  function Sum(workers: seq<Worker>, value: Worker -> u64): u64 {
    if workers == [] then 0
    else SaturatingAdd(Sum(workers[..|workers| - 1], value), value(workers[|workers| - 1]))
  }

  /** The sum in unbounded integers. */
  function Total(workers: seq<Worker>, value: Worker -> u64): nat {
    if workers == [] then 0
    else Total(workers[..|workers| - 1], value) + value(workers[|workers| - 1])
  }

  /** Saturating at each step is saturating once at the end. */
  lemma {:induction false} SumSaturatesOnce(workers: seq<Worker>, value: Worker -> u64)
    ensures Sum(workers, value) == if Total(workers, value) > U64_MAX then U64_MAX else Total(workers, value)
  {
    if workers != [] { SumSaturatesOnce(workers[..|workers| - 1], value); }
  }

  // The columns that are summed.

  function Requests(): Worker -> u64 { (w: Worker) => w.requests }

  function Errors(): Worker -> u64 { (w: Worker) => w.errors }

  function ActiveRequests(): Worker -> u64 { (w: Worker) => w.activeRequests }

  function LagTotal(): Worker -> u64 { (w: Worker) => w.lagTotal }

  function LagSamples(): Worker -> u64 { (w: Worker) => w.lagSamples }

  function ResidentMemory(): Worker -> u64 { (w: Worker) => w.residentMemory }

  function PhpMemory(): Worker -> u64 { (w: Worker) => w.phpMemory }

  // ----- names in order -----

  /** The byte order of Rust strings. */
  predicate Leq(a: string, b: string) {
    a == [] || (b != [] && (a[0] < b[0] || (a[0] == b[0] && Leq(a[1..], b[1..]))))
  }

  lemma {:induction false} LeqIsTotal(a: string, b: string)
    ensures Leq(a, b) || Leq(b, a)
    ensures Leq(a, b) && Leq(b, a) ==> a == b
  {
    if a != [] && b != [] {
      LeqIsTotal(a[1..], b[1..]);
      assert a == [a[0]] + a[1..] && b == [b[0]] + b[1..];
    }
  }

  lemma {:induction false} LeqIsTransitive(a: string, b: string, c: string)
    requires Leq(a, b) && Leq(b, c)
    ensures Leq(a, c)
  {
    if a != [] && a[0] == b[0] && b[0] == c[0] { LeqIsTransitive(a[1..], b[1..], c[1..]); }
  }

  predicate Sorted(names: seq<string>) {
    forall i, j :: 0 <= i < j < |names| ==> Leq(names[i], names[j])
  }

  predicate Distinct(names: seq<string>) {
    forall i, j :: 0 <= i < j < |names| ==> names[i] != names[j]
  }

  /** A sorted list without repetitions is fixed by its members alone, so the choice of sorting
  algorithm cannot show. */
  lemma {:induction false} SortedIsDetermined(a: seq<string>, b: seq<string>)
    requires Sorted(a) && Distinct(a) && Sorted(b) && Distinct(b)
    requires forall name :: name in a <==> name in b
    ensures a == b
  {
    assert a != [] ==> a[0] in b;
    assert b != [] ==> b[0] in a;
    if a != [] && b != [] {
      LeqIsTotal(a[0], b[0]);
      assert a[0] == b[0];
      forall name ensures name in a[1..] <==> name in b[1..] {
        assert name in a <==> name == a[0] || name in a[1..];
        assert name in b <==> name == b[0] || name in b[1..];
      }
      SortedIsDetermined(a[1..], b[1..]);
      assert a == [a[0]] + a[1..] && b == [b[0]] + b[1..];
    }
  }

  /** Puts `name` where it belongs in a sorted list. */
  method Insert(sorted: seq<string>, name: string) returns (r: seq<string>)
    requires Sorted(sorted)
    ensures Sorted(r) && multiset(r) == multiset(sorted) + multiset{name}
  {
    var at := |sorted|;
    while at > 0 && !Leq(sorted[at - 1], name)
      invariant 0 <= at <= |sorted|
      invariant forall k :: at <= k < |sorted| ==> Leq(name, sorted[k])
    {
      LeqIsTotal(sorted[at - 1], name);
      at := at - 1;
    }
    forall k | 0 <= k < at ensures Leq(sorted[k], name) {
      if k < at - 1 { LeqIsTransitive(sorted[k], sorted[at - 1], name); }
    }
    hide Leq, Sorted;
    assert sorted == sorted[..at] + sorted[at..];
    InsertKeepsSorted(sorted[..at], name, sorted[at..]);
    r := sorted[..at] + [name] + sorted[at..];
  }

  lemma InsertKeepsSorted(front: seq<string>, name: string, back: seq<string>)
    requires Sorted(front + back)
    requires forall k :: 0 <= k < |front| ==> Leq(front[k], name)
    requires forall k :: 0 <= k < |back| ==> Leq(name, back[k])
    ensures Sorted(front + [name] + back)
  {
    hide Leq;
    var all, r := front + back, front + [name] + back;
    forall i, j | 0 <= i < j < |r| ensures Leq(r[i], r[j]) {
      if i != |front| && j != |front| {
        var i', j' := if i < |front| then i else i - 1, if j < |front| then j else j - 1;
        assert r[i] == all[i'] && r[j] == all[j'];
      }
    }
  }

  /** The listed names are those of the workers' pools and no others. */
  ghost predicate ArePools(workers: seq<Worker>, pools: seq<string>) {
    forall name :: name in pools <==> exists w :: w in workers && PoolName(w) == name
  }

  /** The sorted and deduplicated pool names. */
  method Pools(workers: seq<Worker>) returns (pools: seq<string>)
    ensures Sorted(pools) && Distinct(pools)
    ensures ArePools(workers, pools)
    ensures forall w :: w in workers ==> (if w.pool.Some? then w.pool.value else "default") in pools
  {
    var names: seq<string> := [];
    for i := 0 to |workers|
      invariant Sorted(names)
      invariant forall name :: name in names <==> exists k :: 0 <= k < i && PoolName(workers[k]) == name
    {
      ghost var before := names;
      names := Insert(names, PoolName(workers[i]));
      assert forall name :: name in names <==> name in multiset(names);
      assert forall name :: name in before <==> name in multiset(before);
    }
    pools := Dedup(names);
  }

  /** Keeps the first of each run of equal names. */
  method Dedup(names: seq<string>) returns (r: seq<string>)
    requires Sorted(names)
    ensures Sorted(r) && Distinct(r)
    ensures forall name :: name in r <==> name in names
  {
    r := [];
    for i := 0 to |names|
      invariant Sorted(r) && Distinct(r)
      invariant forall name :: name in r <==> name in names[..i]
      invariant i > 0 ==> r != [] && r[|r| - 1] == names[i - 1]
    {
      ghost var before := r;
      if i == 0 || names[i - 1] != names[i] {
        forall k | 0 <= k < |r| ensures Leq(r[k], names[i]) && r[k] != names[i] {
          assert r[k] in names[..i] && r[|r| - 1] == names[i - 1];
          LeqIsTotal(names[i - 1], names[i]);
          assert k < |r| - 1 ==> Leq(r[k], names[i - 1]);
        }
        r := r + [names[i]];
      }
      assert names[..i + 1] == names[..i] + [names[i]];
    }
    assert names[..|names|] == names;
  }

  // ----- the partition into pools -----

  function Members(workers: seq<Worker>, pool: string): seq<Worker> {
    if workers == [] then []
    else
      var last := workers[|workers| - 1];
      Members(workers[..|workers| - 1], pool) + (if PoolName(last) == pool then [last] else [])
  }

  /** The workers of the listed pools, and their totals, pool by pool. */
  ghost function Listed(workers: seq<Worker>, pools: seq<string>): multiset<Worker> {
    if pools == [] then multiset{}
    else multiset(Members(workers, pools[0])) + Listed(workers, pools[1..])
  }

  function PoolTotals(workers: seq<Worker>, pools: seq<string>, value: Worker -> u64): nat {
    if pools == [] then 0
    else Total(Members(workers, pools[0]), value) + PoolTotals(workers, pools[1..], value)
  }

  function PoolSums(workers: seq<Worker>, pools: seq<string>, value: Worker -> u64): nat {
    if pools == [] then 0
    else Sum(Members(workers, pools[0]), value) + PoolSums(workers, pools[1..], value)
  }

  lemma {:induction false} NobodyListed(pools: seq<string>, value: Worker -> u64)
    ensures Listed([], pools) == multiset{} && PoolTotals([], pools, value) == 0
  {
    if pools != [] { NobodyListed(pools[1..], value); }
  }

  lemma OneMoreMember(workers: seq<Worker>, w: Worker, pool: string, value: Worker -> u64)
    ensures Members(workers + [w], pool) == Members(workers, pool) + (if PoolName(w) == pool then [w] else [])
    ensures Total(Members(workers + [w], pool), value) ==
            Total(Members(workers, pool), value) + (if PoolName(w) == pool then value(w) else 0)
  {
    assert (workers + [w])[..|workers|] == workers;
    var group := Members(workers, pool);
    assert (group + [w])[..|group|] == group && group + [] == group;
  }

  /** One more worker shows up in its own pool and in no other. */
  lemma {:induction false} OneMoreListed(workers: seq<Worker>, w: Worker, pools: seq<string>, value: Worker -> u64)
    requires Distinct(pools)
    ensures Listed(workers + [w], pools) ==
            Listed(workers, pools) + (if PoolName(w) in pools then multiset{w} else multiset{})
    ensures PoolTotals(workers + [w], pools, value) ==
            PoolTotals(workers, pools, value) + (if PoolName(w) in pools then value(w) else 0)
  {
    hide Members, Total, PoolName;
    if pools != [] {
      var rest := pools[1..];
      OneMoreListed(workers, w, rest, value);
      OneMoreMember(workers, w, pools[0], value);
      assert PoolName(w) in pools <==> PoolName(w) == pools[0] || PoolName(w) in rest;
      assert PoolName(w) == pools[0] ==> PoolName(w) !in rest;
      var group := Members(workers, pools[0]);
      assert multiset(group + [w]) == multiset(group) + multiset{w};
    }
  }

  /** Each worker is in exactly one listed pool, so nothing is lost or counted twice. */
  lemma {:induction false} PoolsPartition(workers: seq<Worker>, pools: seq<string>, value: Worker -> u64)
    requires Distinct(pools)
    requires forall w :: w in workers ==> PoolName(w) in pools
    ensures Listed(workers, pools) == multiset(workers)
    ensures PoolTotals(workers, pools, value) == Total(workers, value)
  {
    hide Members, Listed, PoolTotals, PoolName, Distinct;
    if workers == [] {
      NobodyListed(pools, value);
    } else {
      var front, last := workers[..|workers| - 1], workers[|workers| - 1];
      assert workers == front + [last];
      PoolsPartition(front, pools, value);
      OneMoreListed(front, last, pools, value);
    }
  }

  /** What the pools' saturating sums add up to. */
  lemma {:induction false} PoolSumsBound(workers: seq<Worker>, pools: seq<string>, value: Worker -> u64)
    ensures PoolSums(workers, pools, value) <= PoolTotals(workers, pools, value)
    ensures PoolTotals(workers, pools, value) <= U64_MAX ==>
              PoolSums(workers, pools, value) == PoolTotals(workers, pools, value)
    ensures PoolTotals(workers, pools, value) > U64_MAX ==> PoolSums(workers, pools, value) >= U64_MAX
    ensures PoolSums(workers, pools, value) == 0 ==> PoolTotals(workers, pools, value) == 0
  {
    if pools != [] {
      SumSaturatesOnce(Members(workers, pools[0]), value);
      PoolSumsBound(workers, pools[1..], value);
    }
  }

  /** Some one pool has the whole total. */
  predicate OnePoolHasAll(workers: seq<Worker>, pools: seq<string>, value: Worker -> u64) {
    pools != [] &&
    (PoolTotals(workers, pools[1..], value) == 0
     || (Total(Members(workers, pools[0]), value) == 0 && OnePoolHasAll(workers, pools[1..], value)))
  }

  lemma {:induction false} SaturatedExactlyWhen(workers: seq<Worker>, pools: seq<string>, value: Worker -> u64)
    requires PoolTotals(workers, pools, value) > U64_MAX
    ensures PoolSums(workers, pools, value) == U64_MAX <==> OnePoolHasAll(workers, pools, value)
  {
    var rest := pools[1..];
    SumSaturatesOnce(Members(workers, pools[0]), value);
    PoolSumsBound(workers, rest, value);
    if PoolTotals(workers, rest, value) > U64_MAX { SaturatedExactlyWhen(workers, rest, value); }
  }

  /** The pools' sums add up to the cluster's sum if and only if the true total fits 64 bits or
  all of it sits in one pool. */
  lemma PoolSumsAddUpExactlyWhen(workers: seq<Worker>, pools: seq<string>, value: Worker -> u64)
    requires Distinct(pools)
    requires forall w :: w in workers ==> PoolName(w) in pools
    ensures PoolSums(workers, pools, value) == Sum(workers, value) <==>
            Total(workers, value) <= U64_MAX || OnePoolHasAll(workers, pools, value)
  {
    PoolsPartition(workers, pools, value);
    SumSaturatesOnce(workers, value);
    PoolSumsBound(workers, pools, value);
    if Total(workers, value) > U64_MAX { SaturatedExactlyWhen(workers, pools, value); }
  }

  // ----- the lag averages -----

  /** Over the reals; printing rounds to six decimals. */
  function Average(total: u64, samples: u64): real {
    if samples == 0 then 0.0 else total as real / samples as real
  }

  /** The lag of workers whose samples are not counted yet. */
  function Uncounted(workers: seq<Worker>): nat {
    if workers == [] then 0
    else
      var last := workers[|workers| - 1];
      Uncounted(workers[..|workers| - 1]) + (if last.lagSamples == 0 then last.lagTotal else 0)
  }

  lemma ScaledMean(bound: real, total: u64, samples: u64)
    requires samples > 0
    ensures bound <= Average(total, samples) <==> bound * samples as real <= total as real
    ensures Average(total, samples) <= bound <==> total as real <= bound * samples as real
  {
    var n := samples as real;
    assert Average(total, samples) * n == total as real;
    Scaled(bound, Average(total, samples), n);
    Scaled(Average(total, samples), bound, n);
  }

  lemma Scaled(a: real, b: real, n: real)
    requires n > 0.0
    ensures a <= b <==> a * n <= b * n
  {
    assert (b - a) * n == b * n - a * n;
    assert a <= b ==> 0.0 <= (b - a) * n;
    assert a > b ==> 0.0 < (a - b) * n && (a - b) * n == a * n - b * n;
  }

  ghost predicate MeansBetween(workers: seq<Worker>, low: real, high: real) {
    forall w :: w in workers && w.lagSamples > 0 ==> low <= Average(w.lagTotal, w.lagSamples) <= high
  }

  function Scale(bound: real, n: nat): real { bound * n as real }

  lemma ScaleAdds(bound: real, m: nat, n: nat)
    ensures Scale(bound, m + n) == Scale(bound, m) + Scale(bound, n) && Scale(bound, 0) == 0.0
  {
    assert bound * (m as real + n as real) == bound * m as real + bound * n as real;
  }

  /** How much more lag the workers with samples could have had at `high` per sample. */
  function Slack(workers: seq<Worker>, high: real): real {
    if workers == [] then 0.0
    else
      var last := workers[|workers| - 1];
      Slack(workers[..|workers| - 1], high)
      + (if last.lagSamples == 0 then 0.0 else Scale(high, last.lagSamples) - last.lagTotal as real)
  }

  lemma {:induction false} SlackIsDistance(workers: seq<Worker>, high: real)
    ensures Slack(workers, high) ==
            Scale(high, Total(workers, LagSamples())) - Total(workers, LagTotal()) as real + Uncounted(workers) as real
  {
    ScaleAdds(high, 0, 0);
    if workers != [] {
      hide Scale;
      var front, last := workers[..|workers| - 1], workers[|workers| - 1];
      SlackIsDistance(front, high);
      ScaleAdds(high, Total(front, LagSamples()), last.lagSamples);
    }
  }

  /** What saturation takes off a total. */
  function Excess(total: nat): nat { if total > U64_MAX then total - U64_MAX else 0 }

  function MeanLag(workers: seq<Worker>): real { Average(Sum(workers, LagTotal()), Sum(workers, LagSamples())) }

  /** The weighted mean lag is at most `high` if and only if the lag of workers without a sample
  fits into what the workers with samples leave of `high` per sample; where a sum saturates,
  after taking off what it lost. */
  lemma MeanLagAtMostExactlyWhen(workers: seq<Worker>, high: real)
    requires Total(workers, LagSamples()) > 0
    ensures MeanLag(workers) <= high <==>
            Uncounted(workers) as real + Scale(high, Excess(Total(workers, LagSamples()))) <=
            Slack(workers, high) + Excess(Total(workers, LagTotal())) as real
  {
    hide Total, Sum, Uncounted, Average, Slack, Scale;
    SumSaturatesOnce(workers, LagTotal());
    SumSaturatesOnce(workers, LagSamples());
    SlackIsDistance(workers, high);
    ScaleAdds(high, Sum(workers, LagSamples()), Excess(Total(workers, LagSamples())));
    MeanAtMost(high, Sum(workers, LagTotal()), Sum(workers, LagSamples()));
  }

  /** And it is at least `low` if and only if that lag makes up for what is missing below it. */
  lemma MeanLagAtLeastExactlyWhen(workers: seq<Worker>, low: real)
    requires Total(workers, LagSamples()) > 0
    ensures low <= MeanLag(workers) <==>
            Slack(workers, low) + Excess(Total(workers, LagTotal())) as real <=
            Uncounted(workers) as real + Scale(low, Excess(Total(workers, LagSamples())))
  {
    hide Total, Sum, Uncounted, Average, Slack, Scale;
    SumSaturatesOnce(workers, LagTotal());
    SumSaturatesOnce(workers, LagSamples());
    SlackIsDistance(workers, low);
    ScaleAdds(low, Sum(workers, LagSamples()), Excess(Total(workers, LagSamples())));
    MeanAtMost(low, Sum(workers, LagTotal()), Sum(workers, LagSamples()));
  }

  lemma MeanAtMost(bound: real, total: u64, samples: u64)
    requires samples > 0
    ensures Average(total, samples) <= bound <==> total as real <= Scale(bound, samples)
    ensures bound <= Average(total, samples) <==> Scale(bound, samples) <= total as real
  {
    hide Average;
    ScaledMean(bound, total, samples);
  }

  lemma {:induction false} SlackIsSigned(workers: seq<Worker>, low: real, high: real)
    requires MeansBetween(workers, low, high)
    ensures Slack(workers, low) <= 0.0 <= Slack(workers, high)
  {
    if workers != [] {
      hide Average, Scale;
      var front, last := workers[..|workers| - 1], workers[|workers| - 1];
      SlackIsSigned(front, low, high);
      if last.lagSamples > 0 {
        MeanAtMost(low, last.lagTotal, last.lagSamples);
        MeanAtMost(high, last.lagTotal, last.lagSamples);
      }
    }
  }

  /** The cluster's weighted mean lag is never below the smallest mean of the workers with
  samples unless the lag total saturates, and not above the largest when no worker shows lag
  without a sample, unless the sample total saturates. */
  lemma MeanLagBetween(workers: seq<Worker>, low: real, high: real)
    requires MeansBetween(workers, low, high) && Total(workers, LagSamples()) > 0
    ensures Total(workers, LagTotal()) <= U64_MAX && (0.0 <= low || Total(workers, LagSamples()) <= U64_MAX) ==>
              low <= MeanLag(workers)
    ensures Uncounted(workers) == 0 && Total(workers, LagSamples()) <= U64_MAX ==> MeanLag(workers) <= high
  {
    hide Total, Sum, Uncounted, Average, Slack, Scale, MeansBetween, MeanLag;
    MeanLagAtLeastExactlyWhen(workers, low);
    MeanLagAtMostExactlyWhen(workers, high);
    SlackIsSigned(workers, low, high);
    ScaleKeepsSign(low, Excess(Total(workers, LagSamples())));
    ScaleAdds(low, 0, 0);
    ScaleAdds(high, 0, 0);
  }

  lemma ScaleKeepsSign(bound: real, n: nat)
    ensures 0.0 <= bound ==> 0.0 <= Scale(bound, n)
  {
  }

  /** A worker read between the update of its lag total and that of its sample count lifts the
  mean above every worker's own. */
  lemma UncountedLagLiftsTheMean(w: Worker, unsampled: Worker)
    requires w.lagTotal == 10 && w.lagSamples == 10
    requires unsampled.lagTotal == 100 && unsampled.lagSamples == 0
    ensures MeansBetween([w, unsampled], 1.0, 1.0)
    ensures MeanLag([w, unsampled]) == 11.0
  {
    var both := [w, unsampled];
    assert both[..1] == [w] && [w][..0] == [];
    assert LagTotal()(w) == 10 && LagSamples()(w) == 10 && [w][|[w]| - 1] == w;
    assert Sum([w], LagTotal()) == 10 && Sum([w], LagSamples()) == 10;
  }

  // ----- the histogram -----

  /** All requests a worker saw in its first `n` buckets, and all workers together. */
  function InBuckets(w: Worker, n: nat): nat
    requires n <= |w.buckets|
  {
    if n == 0 then 0 else InBuckets(w, n - 1) + w.buckets[n - 1]
  }

  predicate Bucketed(workers: seq<Worker>) {
    forall w :: w in workers ==> |w.buckets| == BUCKETS
  }

  function Observed(workers: seq<Worker>, n: nat): nat
    requires Bucketed(workers) && n <= BUCKETS
  {
    if workers == [] then 0
    else Observed(workers[..|workers| - 1], n) + InBuckets(workers[|workers| - 1], n)
  }

  /** One bucket over all workers, with the wrap-around of an unchecked 64-bit sum. */
  function BucketSum(workers: seq<Worker>, k: nat): u64
    requires Bucketed(workers) && k < BUCKETS
  {
    if workers == [] then 0
    else
      var sum := BucketSum(workers[..|workers| - 1], k) + workers[|workers| - 1].buckets[k];
      if sum > U64_MAX then sum - U64_SPAN else sum
  }

  lemma {:induction false} ObservedGrows(workers: seq<Worker>, n: nat)
    requires Bucketed(workers) && n < BUCKETS
    ensures Observed(workers, n) <= Observed(workers, n + 1)
    ensures Observed(workers, n + 1) - Observed(workers, n) <= U64_MAX ==>
              BucketSum(workers, n) == Observed(workers, n + 1) - Observed(workers, n)
  {
    if workers != [] { ObservedGrows(workers[..|workers| - 1], n); }
  }

  /** Row `k` is the number of requests in buckets `0..k` exactly when that number fits 64 bits,
  and the rows never decrease. */
  method Histogram(workers: seq<Worker>) returns (rows: seq<u64>)
    requires Bucketed(workers)
    ensures |rows| == BUCKETS
    ensures forall i, j :: 0 <= i < j < |rows| ==> rows[i] <= rows[j]
    ensures forall k :: 0 <= k < |rows| ==>
              (rows[k] == Observed(workers, k + 1) <==> Observed(workers, k + 1) <= U64_MAX)
  {
    rows := [];
    var cumulative: u64 := 0;
    NothingObserved(workers);
    for index := 0 to BUCKETS
      invariant |rows| == index
      invariant forall i :: 0 <= i < |rows| ==> rows[i] <= cumulative
      invariant forall i, j :: 0 <= i < j < |rows| ==> rows[i] <= rows[j]
      invariant Observed(workers, index) <= U64_MAX ==> cumulative == Observed(workers, index)
      invariant forall k :: 0 <= k < |rows| ==>
                  (rows[k] == Observed(workers, k + 1) <==> Observed(workers, k + 1) <= U64_MAX)
    {
      ObservedGrows(workers, index);
      cumulative := SaturatingAdd(cumulative, BucketSum(workers, index));
      rows := rows + [cumulative];
    }
  }

  lemma {:induction false} NothingObserved(workers: seq<Worker>)
    requires Bucketed(workers)
    ensures Observed(workers, 0) == 0
  {
    if workers != [] { NothingObserved(workers[..|workers| - 1]); }
  }

  // ----- the rows of each pool -----

  function Largest(workers: seq<Worker>, value: Worker -> u64): (r: u64)
    ensures forall w :: w in workers ==> value(w) <= r
    ensures workers != [] ==> exists w :: w in workers && value(w) == r
  {
    if workers == [] then 0
    else
      var last := value(workers[|workers| - 1]);
      var front := Largest(workers[..|workers| - 1], value);
      assert workers == workers[..|workers| - 1] + [workers[|workers| - 1]];
      if |workers| > 1 && front > last then front else last
  }

  datatype PoolRow = PoolRow(
    pool: string, workers: nat, requests: u64, errors: u64, activeRequests: u64,
    lag: u64, lagMax: u64, lagAverage: real, residentMemory: u64, phpMemory: u64)

  /** The lag columns are the lag fields. */
  lemma LagColumns(workers: seq<Worker>)
    ensures Total(workers, LagTotal()) == Total(workers, (w: Worker) => w.lagTotal)
    ensures Total(workers, LagSamples()) == Total(workers, (w: Worker) => w.lagSamples)
  {
  }

  function Row(pool: string, group: seq<Worker>): (r: PoolRow)
    ensures r.pool == pool && r.workers == |group|
    ensures forall w :: w in group ==> w.lag <= r.lag && w.lagMax <= r.lagMax
    ensures group != [] ==> exists w :: w in group && w.lag == r.lag
    ensures group != [] ==> exists w :: w in group && w.lagMax == r.lagMax
    ensures r.lagAverage == MeanLag(group)
  {
    PoolRow(
      pool, |group|,
      Sum(group, Requests()),
      Sum(group, Errors()),
      Sum(group, ActiveRequests()),
      Largest(group, (w: Worker) => w.lag),
      Largest(group, (w: Worker) => w.lagMax),
      Average(Sum(group, LagTotal()), Sum(group, LagSamples())),
      Sum(group, ResidentMemory()),
      Sum(group, PhpMemory()))
  }

  function Names(rows: seq<PoolRow>): seq<string> {
    seq(|rows|, i requires 0 <= i < |rows| => rows[i].pool)
  }

  /** One row per pool, in name order, each computed from that pool's workers. */
  method PoolRows(workers: seq<Worker>) returns (rows: seq<PoolRow>)
    ensures Sorted(Names(rows)) && Distinct(Names(rows))
    ensures forall w :: w in workers ==> PoolName(w) in Names(rows)
    ensures forall name :: name in Names(rows) ==> Members(workers, name) != []
    ensures forall row :: row in rows ==> row == Row(row.pool, Members(workers, row.pool))
    ensures Listed(workers, Names(rows)) == multiset(workers)
  {
    hide Row, Listed, Sorted, Distinct, PoolName, Members, ArePools;
    var pools := Pools(workers);
    rows := RowsOf(workers, pools);
    PoolsAreComplete(workers, pools);
  }

  lemma {:induction false} PoolsAreComplete(workers: seq<Worker>, pools: seq<string>)
    requires ArePools(workers, pools) && Distinct(pools)
    ensures forall w :: w in workers ==> PoolName(w) in pools
    ensures forall name :: name in pools ==> Members(workers, name) != []
    ensures Listed(workers, pools) == multiset(workers)
  {
    hide Members, Listed, Distinct, PoolName;
    PoolsPartition(workers, pools, LagTotal());
    forall name | name in pools ensures Members(workers, name) != [] {
      var w :| w in workers && PoolName(w) == name;
      HasMember(workers, w);
    }
  }

  method RowsOf(workers: seq<Worker>, pools: seq<string>) returns (rows: seq<PoolRow>)
    ensures Names(rows) == pools
    ensures forall row :: row in rows ==> row == Row(row.pool, Members(workers, row.pool))
  {
    hide Row, Members;
    rows := [];
    for i := 0 to |pools|
      invariant Names(rows) == pools[..i]
      invariant forall row :: row in rows ==> row == Row(row.pool, Members(workers, row.pool))
    {
      var row := Row(pools[i], Members(workers, pools[i]));
      ghost var before := rows;
      rows := rows + [row];
      assert Names(rows) == Names(before) + [row.pool];
      assert pools[..i + 1] == pools[..i] + [pools[i]];
    }
    assert pools[..|pools|] == pools;
  }

  lemma {:induction false} HasMember(workers: seq<Worker>, w: Worker)
    requires w in workers
    ensures w in Members(workers, PoolName(w))
  {
    if w != workers[|workers| - 1] { HasMember(workers[..|workers| - 1], w); }
  }

  // ----- the printed rows add up -----

  function Column(rows: seq<PoolRow>, field: PoolRow -> nat): nat {
    if rows == [] then 0 else field(rows[0]) + Column(rows[1..], field)
  }

  lemma {:induction false} ColumnIsPoolSums(
      workers: seq<Worker>, rows: seq<PoolRow>, field: PoolRow -> nat, value: Worker -> u64)
    requires forall row :: row in rows ==> field(row) == Sum(Members(workers, row.pool), value)
    ensures Column(rows, field) == PoolSums(workers, Names(rows), value)
  {
    hide Members, Sum;
    if rows != [] {
      assert Names(rows)[0] == rows[0].pool && Names(rows)[1..] == Names(rows[1..]);
      ColumnIsPoolSums(workers, rows[1..], field, value);
    }
  }

  lemma {:induction false} ColumnIsHeadcount(workers: seq<Worker>, rows: seq<PoolRow>, field: PoolRow -> nat)
    requires forall row :: row in rows ==> field(row) == |Members(workers, row.pool)|
    ensures Column(rows, field) == |Listed(workers, Names(rows))|
  {
    hide Members;
    if rows != [] {
      assert Names(rows)[0] == rows[0].pool && Names(rows)[1..] == Names(rows[1..]);
      ColumnIsHeadcount(workers, rows[1..], field);
    }
  }

  /** The rows of `PoolRows` account for every worker once, and each summed column adds up to
  the figure printed for the cluster when the true total fits 64 bits. */
  lemma RowsAddUp(workers: seq<Worker>, rows: seq<PoolRow>)
    requires Distinct(Names(rows))
    requires forall w :: w in workers ==> PoolName(w) in Names(rows)
    requires forall row :: row in rows ==> row == Row(row.pool, Members(workers, row.pool))
    ensures Column(rows, (r: PoolRow) => r.workers) == |workers|
    ensures Total(workers, (w: Worker) => w.requests) <= U64_MAX ==>
              Column(rows, (r: PoolRow) => r.requests) == Total(workers, (w: Worker) => w.requests)
    ensures Total(workers, (w: Worker) => w.errors) <= U64_MAX ==>
              Column(rows, (r: PoolRow) => r.errors) == Total(workers, (w: Worker) => w.errors)
    ensures Total(workers, (w: Worker) => w.activeRequests) <= U64_MAX ==>
              Column(rows, (r: PoolRow) => r.activeRequests) == Total(workers, (w: Worker) => w.activeRequests)
    ensures Total(workers, (w: Worker) => w.residentMemory) <= U64_MAX ==>
              Column(rows, (r: PoolRow) => r.residentMemory) == Total(workers, (w: Worker) => w.residentMemory)
    ensures Total(workers, (w: Worker) => w.phpMemory) <= U64_MAX ==>
              Column(rows, (r: PoolRow) => r.phpMemory) == Total(workers, (w: Worker) => w.phpMemory)
  {
    SumSaturatesOnce(workers, Requests());
    SumSaturatesOnce(workers, Errors());
    SumSaturatesOnce(workers, ActiveRequests());
    SumSaturatesOnce(workers, ResidentMemory());
    SumSaturatesOnce(workers, PhpMemory());
    hide Members, Sum, Total, Column, Listed, PoolSums, OnePoolHasAll, Distinct, PoolName, Largest, Average;
    var pools := Names(rows);
    PoolsPartition(workers, pools, Requests());
    ColumnIsHeadcount(workers, rows, (r: PoolRow) => r.workers);
    ColumnIsPoolSums(workers, rows, (r: PoolRow) => r.requests, Requests());
    PoolSumsAddUpExactlyWhen(workers, pools, Requests());
    ColumnIsPoolSums(workers, rows, (r: PoolRow) => r.errors, Errors());
    PoolSumsAddUpExactlyWhen(workers, pools, Errors());
    ColumnIsPoolSums(workers, rows, (r: PoolRow) => r.activeRequests, ActiveRequests());
    PoolSumsAddUpExactlyWhen(workers, pools, ActiveRequests());
    ColumnIsPoolSums(workers, rows, (r: PoolRow) => r.residentMemory, ResidentMemory());
    PoolSumsAddUpExactlyWhen(workers, pools, ResidentMemory());
    ColumnIsPoolSums(workers, rows, (r: PoolRow) => r.phpMemory, PhpMemory());
    PoolSumsAddUpExactlyWhen(workers, pools, PhpMemory());
  }
}
