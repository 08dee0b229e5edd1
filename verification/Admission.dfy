/** Bounded admission to the isolated database pool and the process pool, and the bounded
capture of process output. */
module Admission {
  import opened Text

  /** The process pool has no queue limit and does not count its waiters. */
  datatype Limits = Limits(workers: nat, queue: Option<nat>)

  datatype Phase = Waiting | Executing

  /** The two counters, and the calls in progress. */
  datatype State = State(active: int, waiting: int, calls: map<nat, Phase>)

  datatype Action =
    | Arrive(call: nat)
    | Retry(call: nat)       // one pass of the wait loop
    | Abandon(call: nat)     // a timeout or an exception while waiting
    | Finish(call: nat)      // the query or process returned or threw

  function Step(l: Limits, s: State, a: Action): State {
    match a
    case Arrive(c) =>
      if c in s.calls then s
      else if s.active < l.workers then State(s.active + 1, s.waiting, s.calls[c := Executing])
      else if l.queue.Some? && s.waiting >= l.queue.value then s
      else State(s.active, s.waiting + 1, s.calls[c := Waiting])
    case Retry(c) =>
      if c in s.calls && s.calls[c].Waiting? && s.active < l.workers
      then State(s.active + 1, s.waiting - 1, s.calls[c := Executing])
      else s
    case Abandon(c) =>
      if c in s.calls && s.calls[c].Waiting? then State(s.active, s.waiting - 1, s.calls - {c}) else s
    case Finish(c) =>
      if c in s.calls && s.calls[c].Executing? then State(s.active - 1, s.waiting, s.calls - {c}) else s
  }

  function In(s: State, phase: Phase): set<nat> { set c | c in s.calls && s.calls[c] == phase }

  /** The counters are the numbers of executing and waiting calls, and respect the limits. */
  ghost predicate Counted(l: Limits, s: State) {
    && s.active == |In(s, Executing)| <= l.workers
    && s.waiting == |In(s, Waiting)|
    && (l.queue.Some? ==> s.waiting <= l.queue.value)
  }

  lemma StepIsCounted(l: Limits, s: State, a: Action)
    requires Counted(l, s)
    ensures Counted(l, Step(l, s, a))
  {
    var s1 := Step(l, s, a);
    var c := a.call;
    forall phase ensures In(s1, phase) - {c} == In(s, phase) - {c} {
    }
    Cardinality(In(s, Executing), In(s1, Executing), c);
    Cardinality(In(s, Waiting), In(s1, Waiting), c);
  }

  lemma Cardinality(a: set<nat>, b: set<nat>, c: nat)
    requires a - {c} == b - {c}
    ensures |b| - (if c in b then 1 else 0) == |a| - (if c in a then 1 else 0)
  {
    assert |a - {c}| == |a| - (if c in a then 1 else 0);
    assert |b - {c}| == |b| - (if c in b then 1 else 0);
  }

  function Run(l: Limits, s: State, actions: seq<Action>): State
    decreases |actions|
  {
    if actions == [] then s else Run(l, Step(l, s, actions[0]), actions[1..])
  }

  /** Under every interleaving and every exit path the counters are exact and within the
  limits; in particular they are back to zero when no call is in progress. */
  lemma {:induction false} EveryRunIsCounted(l: Limits, s: State, actions: seq<Action>)
    requires Counted(l, s)
    ensures Counted(l, Run(l, s, actions))
    ensures Run(l, s, actions).calls == map[] ==> Run(l, s, actions).active == 0 && Run(l, s, actions).waiting == 0
    decreases |actions|
  {
    if actions == [] {
      assert s.calls == map[] ==> In(s, Executing) == {} && In(s, Waiting) == {};
    } else {
      hide Step, Counted;
      StepIsCounted(l, s, actions[0]);
      EveryRunIsCounted(l, Step(l, s, actions[0]), actions[1..]);
    }
  }

  /** Which calls are in progress after a step: a call executes as soon as fewer than the allowed
  number do, waits while there is room in the queue, and is gone once it has ended. */
  lemma CallsMove(l: Limits, s: State, a: Action)
    requires Counted(l, s)
    ensures
      var free := |In(s, Executing)| < l.workers;
      var room := l.queue.None? || |In(s, Waiting)| < l.queue.value;
      var c, calls := a.call, Step(l, s, a).calls;
      && (a.Arrive? && c !in s.calls ==>
            calls == if free then s.calls[c := Executing] else if room then s.calls[c := Waiting] else s.calls)
      && (a.Retry? && c in s.calls && s.calls[c].Waiting? ==>
            calls == if free then s.calls[c := Executing] else s.calls)
      && (a.Abandon? && c in s.calls && s.calls[c].Waiting? ==> calls == s.calls - {c})
      && (a.Finish? && c in s.calls && s.calls[c].Executing? ==> calls == s.calls - {c})
  {
  }

  class Pool {
    const limits: Limits
    var active: int
    var waiting: int
    ghost var calls: map<nat, Phase>

    ghost function View(): State reads this { State(active, waiting, calls) }
    ghost predicate Valid() reads this { Counted(limits, View()) }

    constructor (limits: Limits)
      ensures this.limits == limits && View() == State(0, 0, map[]) && Valid()
    {
      this.limits := limits;
      active, waiting, calls := 0, 0, map[];
      new;
      assert In(View(), Executing) == {} && In(View(), Waiting) == {};
    }

    /** The admission test. `None` throws because the queue is full. */
    method Admit(ghost call: nat) returns (admitted: Option<Phase>)
      requires Valid() && call !in calls
      modifies this
      ensures Valid() && View() == Step(limits, old(View()), Arrive(call))
      ensures admitted == Some(Executing) <==> old(active) < limits.workers
      ensures admitted.None? <==>
        old(active) >= limits.workers && limits.queue.Some? && old(waiting) >= limits.queue.value
      ensures calls == if admitted.None? then old(calls) else old(calls)[call := admitted.value]
    {
      StepIsCounted(limits, View(), Arrive(call));
      if active >= limits.workers {
        if limits.queue.Some? && waiting >= limits.queue.value {
          return None;
        }
        waiting, calls := waiting + 1, calls[call := Waiting];
        return Some(Waiting);
      }
      active, calls := active + 1, calls[call := Executing];
      return Some(Executing);
    }

    /** One pass of the wait loop: a free slot, the deadline, or another suspension. */
    method Poll(ghost call: nat, expired: bool) returns (phase: Option<Phase>)
      requires Valid() && call in calls && calls[call].Waiting?
      modifies this
      ensures Valid()
      ensures phase == Some(Executing) <==> old(active) < limits.workers
      ensures phase.None? <==> old(active) >= limits.workers && expired
      ensures View() == Step(limits, old(View()), if phase.None? then Abandon(call) else Retry(call))
      ensures calls == if phase.None? then old(calls) - {call} else old(calls)[call := phase.value]
    {
      StepIsCounted(limits, View(), Retry(call));
      StepIsCounted(limits, View(), Abandon(call));
      if active >= limits.workers {
        if expired {
          waiting, calls := waiting - 1, calls - {call};
          return None;
        }
        return Some(Waiting);
      }
      waiting := waiting - 1;
      active, calls := active + 1, calls[call := Executing];
      return Some(Executing);
    }

    method Release(ghost call: nat)
      requires Valid() && call in calls && calls[call].Executing?
      modifies this
      ensures Valid() && View() == Step(limits, old(View()), Finish(call))
      ensures active == old(active) - 1 && waiting == old(waiting) && calls == old(calls) - {call}
    {
      StepIsCounted(limits, View(), Finish(call));
      active, calls := active - 1, calls - {call};
    }
  }

  // Process output

  function Kept(total: string, max: nat): string { if |total| <= max then total else total[..max] }

  /** What has been captured of everything read so far. */
  ghost predicate Captures(output: string, truncated: bool, total: string, max: nat) {
    output == Kept(total, max) && (truncated <==> |total| > max)
  }

  /** `drain`: at most 64 reads. Over any number of drains, with the stream cut in any way,
  the output is the first `max` bytes of everything read, and the flag is set exactly when
  bytes were dropped. */
  method Drain(feed: seq<string>, output: string, truncated: bool, max: nat, ghost total: string)
    returns (output': string, truncated': bool, rest: seq<string>)
    requires Captures(output, truncated, total, max)
    ensures
      var n := |feed| - |rest|;
      && 0 <= n <= 64 && rest == feed[n..]
      && (n == 64 || rest == [] || rest[0] == "")
      && Captures(output', truncated', total + Flatten(feed[..n]), max)
      && (forall k :: 0 <= k < n ==> feed[k] != "")
      && output' <= total + Flatten(feed[..n])
      && |output'| == (if |total + Flatten(feed[..n])| <= max then |total + Flatten(feed[..n])| else max)
      && (truncated' <==> |output'| < |total + Flatten(feed[..n])|)
  {
    hide Kept;
    output', truncated' := output, truncated;
    var read := 0;
    assert total + Flatten(feed[..0]) == total;
    while read < 64 && read < |feed| && feed[read] != ""
      invariant 0 <= read <= 64 && read <= |feed|
      invariant Captures(output', truncated', total + Flatten(feed[..read]), max)
      invariant forall k :: 0 <= k < read ==> feed[k] != ""
    {
      var chunk := feed[read];
      ghost var before := total + Flatten(feed[..read]);
      FlattenAppend(feed[..read], [chunk]);
      assert feed[..read] + [chunk] == feed[..read + 1];
      assert Flatten([chunk]) == chunk;
      assert total + Flatten(feed[..read + 1]) == before + chunk;
      KeptGrows(before, chunk, max);
      KeptMeans(before, max);
      var remaining := max - |output'|;
      if remaining > 0 {
        output' := output' + (if |chunk| <= remaining then chunk else chunk[..remaining]);
      }
      if |chunk| > remaining {
        truncated' := true;
      }
      read := read + 1;
    }
    rest := feed[read..];
    KeptMeans(total + Flatten(feed[..read]), max);
  }

  lemma KeptMeans(total: string, max: nat)
    ensures Kept(total, max) <= total && |Kept(total, max)| == if |total| <= max then |total| else max
  {
  }

  lemma KeptGrows(total: string, chunk: string, max: nat)
    ensures var left := max - |Kept(total, max)|;
      left >= 0 && Kept(total + chunk, max) == Kept(total, max) + (if |chunk| <= left then chunk else chunk[..left])
  {
  }
}
