/** Startup-time statistics of a worker generation. */
module StartupStats {
  import opened Text

  predicate Sorted(s: seq<nat>) { |s| < 2 || (s[0] <= s[1] && Sorted(s[1..])) }

  function Insert(x: nat, s: seq<nat>): (r: seq<nat>)
    requires Sorted(s)
    ensures Sorted(r) && |r| == |s| + 1
    ensures r[0] == if s == [] || x <= s[0] then x else s[0]
  {
    if s == [] || x <= s[0] then [x] + s else [s[0]] + Insert(x, s[1..])
  }

  /** `sort_unstable`: on integers, stability is not observable. */
  function Sort(s: seq<nat>): (r: seq<nat>)
    ensures Sorted(r) && |r| == |s|
  {
    if s == [] then [] else Insert(s[0], Sort(s[1..]))
  }

  lemma TailMultiset(s: seq<nat>)
    requires s != []
    ensures multiset(s) == multiset{s[0]} + multiset(s[1..])
  {
    assert s == [s[0]] + s[1..];
  }

  lemma {:induction false} InsertMultiset(x: nat, s: seq<nat>)
    requires Sorted(s)
    ensures multiset(Insert(x, s)) == multiset{x} + multiset(s)
  {
    if !(s == [] || x <= s[0]) {
      InsertMultiset(x, s[1..]);
      TailMultiset(s);
      TailMultiset(Insert(x, s));
    }
  }

  lemma {:induction false} SortMultiset(s: seq<nat>)
    ensures multiset(Sort(s)) == multiset(s)
  {
    if s != [] {
      SortMultiset(s[1..]);
      InsertMultiset(s[0], Sort(s[1..]));
      TailMultiset(s);
    }
  }

  lemma {:induction false} SortedHead(s: seq<nat>, i: nat)
    requires Sorted(s) && i < |s|
    ensures s[0] <= s[i]
  {
    if i > 0 { SortedHead(s[1..], i - 1); }
  }

  lemma HeadIsLeast(s: seq<nat>, v: nat)
    requires Sorted(s) && v in multiset(s)
    ensures s != [] && s[0] <= v
  {
    var i :| 0 <= i < |s| && s[i] == v;
    SortedHead(s, i);
  }

  lemma {:induction false} SortedIsUnique(a: seq<nat>, b: seq<nat>)
    requires Sorted(a) && Sorted(b) && multiset(a) == multiset(b)
    ensures a == b
  {
    if a == [] {
      assert |multiset(b)| == 0;
    } else {
      assert a[0] in multiset(a);
      HeadIsLeast(b, a[0]);
      assert b[0] in multiset(b);
      HeadIsLeast(a, b[0]);
      TailMultiset(a);
      TailMultiset(b);
      SameTails(multiset(a[1..]), multiset(b[1..]), a[0]);
      SortedIsUnique(a[1..], b[1..]);
    }
  }

  lemma SameTails(a: multiset<nat>, b: multiset<nat>, x: nat)
    requires multiset{x} + a == multiset{x} + b
    ensures a == b
  {
    assert a == (multiset{x} + a) - multiset{x};
    assert b == (multiset{x} + b) - multiset{x};
  }

  function AtMost(s: seq<nat>, v: nat): nat {
    if s == [] then 0 else (if s[0] <= v then 1 else 0) + AtMost(s[1..], v)
  }

  lemma {:induction false} AtMostInsert(x: nat, s: seq<nat>, v: nat)
    requires Sorted(s)
    ensures AtMost(Insert(x, s), v) == AtMost(s, v) + if x <= v then 1 else 0
  {
    if !(s == [] || x <= s[0]) { AtMostInsert(x, s[1..], v); }
  }

  lemma {:induction false} AtMostSort(s: seq<nat>, v: nat)
    ensures AtMost(Sort(s), v) == AtMost(s, v)
  {
    if s != [] {
      AtMostSort(s[1..], v);
      AtMostInsert(s[0], Sort(s[1..]), v);
    }
  }

  /** In a sorted list, position `k` separates the values at most `s[k]` from the smaller ones. */
  lemma {:induction false} SortedRank(s: seq<nat>, k: nat, u: nat)
    requires Sorted(s) && k < |s|
    ensures u >= s[k] ==> AtMost(s, u) >= k + 1
    ensures u < s[k] ==> AtMost(s, u) <= k
  {
    if k > 0 {
      SortedHead(s, k);
      SortedRank(s[1..], k - 1, u);
    } else if u < s[0] {
      NoneAtMost(s, u);
    }
  }

  lemma {:induction false} NoneAtMost(s: seq<nat>, u: nat)
    requires Sorted(s) && (s == [] || u < s[0])
    ensures AtMost(s, u) == 0
  {
    if s != [] { NoneAtMost(s[1..], u); }
  }

  function Rank(n: nat): nat { (n * 95 + 99) / 100 }

  /** The least of the values that at least 95% of the values do not exceed. */
  ghost predicate IsP95(values: seq<nat>, v: nat) {
    && v in values
    && 100 * AtMost(values, v) >= 95 * |values|
    && forall u :: u in values && u < v ==> 100 * AtMost(values, u) < 95 * |values|
  }

  /** `p95` on a non-empty list. */
  function P95(values: seq<nat>): (v: nat)
    requires values != []
    ensures IsP95(values, v)
  {
    P95IsNearestRank(values);
    Sort(values)[Rank(|values|) - 1]
  }

  lemma P95IsNearestRank(values: seq<nat>)
    requires values != []
    ensures 1 <= Rank(|values|) <= |values|
    ensures IsP95(values, Sort(values)[Rank(|values|) - 1])
  {
    var sorted, index := Sort(values), Rank(|values|) - 1;
    var v := sorted[index];
    SortMultiset(values);
    assert v in multiset(sorted) && v in multiset(values);
    SortedRank(sorted, index, v);
    AtMostSort(values, v);
    forall u | u in values && u < v ensures 100 * AtMost(values, u) < 95 * |values| {
      SortedRank(sorted, index, u);
      AtMostSort(values, u);
    }
  }

  /** The order of the measurements does not matter. */
  lemma P95IsPermutationInvariant(a: seq<nat>, b: seq<nat>)
    requires a != [] && b != [] && multiset(a) == multiset(b)
    ensures P95(a) == P95(b)
  {
    SortMultiset(a);
    SortMultiset(b);
    SortedIsUnique(Sort(a), Sort(b));
  }

  /** There is only one such value. */
  lemma P95IsDetermined(values: seq<nat>, v: nat, w: nat)
    requires IsP95(values, v) && IsP95(values, w)
    ensures v == w
  {
  }

  // Startup summary

  datatype Timing = Timing(spawned: nat, ready: nat)

  function Duration(t: Timing): nat { if t.ready >= t.spawned then t.ready - t.spawned else 0 }

  datatype Summary = Summary(spread: nat, p95: nat, max: nat)

  ghost predicate IsMaximum(values: seq<nat>, v: nat) { v in values && forall u :: u in values ==> u <= v }
  ghost predicate IsMinimum(values: seq<nat>, v: nat) { v in values && forall u :: u in values ==> v <= u }

  method Extremes(values: seq<nat>) returns (first: nat, last: nat)
    requires values != []
    ensures IsMinimum(values, first) && IsMaximum(values, last)
  {
    first, last := values[0], values[0];
    for i := 1 to |values|
      invariant IsMinimum(values[..i], first) && IsMaximum(values[..i], last)
    {
      assert values[..i + 1] == values[..i] + [values[i]];
      if values[i] < first { first := values[i]; }
      if values[i] > last { last := values[i]; }
    }
    assert values[..|values|] == values;
  }

  function Durations(timings: seq<Timing>): (r: seq<nat>)
    ensures |r| == |timings|
    ensures forall i :: 0 <= i < |r| ==> r[i] == 0 || timings[i].spawned + r[i] == timings[i].ready
    ensures forall i :: 0 <= i < |r| ==> timings[i].ready <= timings[i].spawned + r[i]
    ensures forall i :: 0 <= i < |r| && r[i] > 0 ==> timings[i].spawned < timings[i].ready
  {
    seq(|timings|, i requires 0 <= i < |timings| => Duration(timings[i]))
  }

  function Spawns(timings: seq<Timing>): (r: seq<nat>)
    ensures |r| == |timings| && forall i :: 0 <= i < |r| ==> r[i] == timings[i].spawned
  {
    seq(|timings|, i requires 0 <= i < |timings| => timings[i].spawned)
  }

  lemma LastIsMaximum(values: seq<nat>)
    requires values != []
    ensures IsMaximum(values, Sort(values)[|values| - 1])
  {
    var sorted := Sort(values);
    SortMultiset(values);
    assert sorted[|values| - 1] in multiset(sorted);
    assert sorted[|values| - 1] in multiset(values);
    forall u | u in values ensures u <= sorted[|values| - 1] {
      assert u in multiset(values);
      assert u in multiset(sorted);
      var i :| 0 <= i < |sorted| && sorted[i] == u;
      SortedBetween(sorted, i, |values| - 1);
    }
  }

  lemma {:induction false} SortedBetween(s: seq<nat>, i: nat, j: nat)
    requires Sorted(s) && i <= j < |s|
    ensures s[i] <= s[j]
  {
    if i == 0 { SortedHead(s, j); } else { SortedBetween(s[1..], i - 1, j - 1); }
  }

  /** The spawn spread, the 95th percentile and the true maximum of the startup times. */
  method SummarizeStartupTimings(timings: seq<Timing>) returns (summary: Option<Summary>)
    ensures summary.None? <==> timings == []
    ensures summary.Some? ==> IsP95(Durations(timings), summary.value.p95)
    ensures summary.Some? ==> IsMaximum(Durations(timings), summary.value.max)
    ensures summary.Some? ==>
      exists first: nat, last: nat ::
        && IsMinimum(Spawns(timings), first) && IsMaximum(Spawns(timings), last)
        && summary.value.spread == last - first
  {
    if timings == [] {
      return None;
    }
    var durations := Durations(timings);
    var startup := Sort(durations);
    var first, last := Extremes(Spawns(timings));
    var index := Rank(|startup|) - 1;
    P95IsNearestRank(durations);
    LastIsMaximum(durations);
    return Some(Summary(if last >= first then last - first else 0, startup[index], startup[|startup| - 1]));
  }
}
