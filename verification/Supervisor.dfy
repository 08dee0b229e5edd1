/** The cluster supervisor: worker generations, readiness-gated reload and the crash sweep.

Processes are replaced by what the supervisor observes of them: which workers have exited,
which have run for a minute, whether a spawn works, and what each readiness poll sees. */
module Supervisor {
  import opened Text

  datatype Pool = Pool(name: string, workers: nat)

  datatype Worker = Worker(id: nat, generation: nat, pool: Option<Pool>, failures: nat)

  datatype Config = Config(workers: nat, pools: seq<Pool>)

  // Pool assignment

  function Repeat(pool: Option<Pool>, n: nat): (s: seq<Option<Pool>>)
    ensures |s| == n
  {
    seq(n, _ => pool)
  }

  function Slots(pools: seq<Pool>): seq<Option<Pool>> {
    if pools == [] then [] else Repeat(Some(pools[0]), pools[0].workers) + Slots(pools[1..])
  }

  /** The pool of each worker identifier, starting at 1. */
  function Assignment(c: Config): seq<Option<Pool>> {
    if c.pools == [] then Repeat(None, c.workers) else Slots(c.pools)
  }

  function PoolWorkers(pools: seq<Pool>): nat {
    if pools == [] then 0 else pools[0].workers + PoolWorkers(pools[1..])
  }

  function WorkersNamed(pools: seq<Pool>, name: string): nat {
    if pools == [] then 0 else (if pools[0].name == name then pools[0].workers else 0) + WorkersNamed(pools[1..], name)
  }

  function SlotsNamed(slots: seq<Option<Pool>>, name: string): nat {
    if slots == [] then 0
    else (if slots[0].Some? && slots[0].value.name == name then 1 else 0) + SlotsNamed(slots[1..], name)
  }

  lemma {:induction false} SlotsNamedAppend(a: seq<Option<Pool>>, b: seq<Option<Pool>>, name: string)
    ensures SlotsNamed(a + b, name) == SlotsNamed(a, name) + SlotsNamed(b, name)
  {
    if a == [] {
      assert a + b == b;
    } else {
      SlotsNamedAppend(a[1..], b, name);
      assert (a + b)[0] == a[0] && (a + b)[1..] == a[1..] + b;
    }
  }

  lemma {:induction false} SlotsNamedRepeat(pool: Pool, n: nat, name: string)
    ensures SlotsNamed(Repeat(Some(pool), n), name) == if pool.name == name then n else 0
  {
    if n > 0 {
      SlotsNamedRepeat(pool, n - 1, name);
      assert Repeat(Some(pool), n)[1..] == Repeat(Some(pool), n - 1);
    }
  }

  /** There is one identifier for every worker of every pool, and each pool name gets as many
  as the pools of that name ask for. */
  lemma {:induction false} EveryPoolIsStaffed(pools: seq<Pool>, name: string)
    ensures |Slots(pools)| == PoolWorkers(pools)
    ensures SlotsNamed(Slots(pools), name) == WorkersNamed(pools, name)
  {
    if pools != [] {
      EveryPoolIsStaffed(pools[1..], name);
      SlotsNamedRepeat(pools[0], pools[0].workers, name);
      SlotsNamedAppend(Repeat(Some(pools[0]), pools[0].workers), Slots(pools[1..]), name);
    }
  }

  function Hired(slots: seq<Option<Pool>>, generation: nat): seq<Worker> {
    seq(|slots|, i requires 0 <= i < |slots| => Worker(i + 1, generation, slots[i], 0))
  }

  // The staffing invariant

  function Ids(workers: seq<Worker>): (ids: seq<nat>)
    ensures |ids| == |workers|
  {
    seq(|workers|, i requires 0 <= i < |workers| => workers[i].id)
  }

  function OneTo(n: nat): seq<nat> { seq(n, i => i + 1) }

  predicate Placed(w: Worker, slots: seq<Option<Pool>>, generation: nat) {
    1 <= w.id <= |slots| && w.pool == slots[w.id - 1] && w.generation == generation
  }

  /** The identifiers are exactly 1..N, each once, every worker is in the pool of its
  identifier, and all carry the current generation. */
  ghost predicate Staffed(workers: seq<Worker>, slots: seq<Option<Pool>>, generation: nat) {
    && multiset(Ids(workers)) == multiset(OneTo(|slots|))
    && forall i :: 0 <= i < |workers| ==> Placed(workers[i], slots, generation)
  }

  lemma HiredAreStaffed(slots: seq<Option<Pool>>, generation: nat)
    ensures Staffed(Hired(slots, generation), slots, generation)
    ensures forall w :: w in Hired(slots, generation) ==> w.failures == 0
  {
    assert Ids(Hired(slots, generation)) == OneTo(|slots|);
  }

  // Restart backoff, in milliseconds

  const MAX_BACKOFF: nat := 30_000
  const MAX_FAILURES: nat := 0xffff_ffff

  function Min(a: int, b: int): int { if a <= b then a else b }

  function Pow2(n: nat): nat { if n == 0 then 1 else 2 * Pow2(n - 1) }

  function Backoff(base: nat, failures: nat): nat {
    Min(base * Pow2(Min(if failures == 0 then 0 else failures - 1, 8)), MAX_BACKOFF)
  }

  /** Each further failure doubles the delay up to the thirty-second ceiling, until the
  ninth failure, after which it stays. */
  lemma BackoffDoubles(base: nat, failures: nat)
    requires failures >= 1
    ensures Backoff(base, failures + 1) ==
            if failures < 9 then Min(2 * Backoff(base, failures), MAX_BACKOFF) else Backoff(base, failures)
    ensures Backoff(base, failures) <= MAX_BACKOFF
    ensures Backoff(base, 0) == Backoff(base, 1) == Min(base, MAX_BACKOFF)
  {
    var p := Pow2(Min(failures - 1, 8));
    if failures < 9 {
      assert Pow2(Min(failures, 8)) == 2 * p;
      assert base * (2 * p) == 2 * (base * p);
    }
  }

  // The sweep

  /** What one tick observes. */
  datatype Tick = Tick(exited: set<nat>, veterans: set<nat>, unspawnable: set<nat>)

  function Failures(w: Worker, tick: Tick): nat {
    if w.id in tick.veterans then 1 else Min(w.failures + 1, MAX_FAILURES)
  }

  function Respawned(w: Worker, generation: nat, tick: Tick): Worker {
    Worker(w.id, generation, w.pool, Failures(w, tick))
  }

  function Survivors(workers: seq<Worker>, tick: Tick): seq<Worker> {
    if workers == [] then []
    else (if workers[0].id in tick.exited then [] else [workers[0]]) + Survivors(workers[1..], tick)
  }

  /** Replacements in the order the backward sweep pushes them. */
  function Replacements(workers: seq<Worker>, generation: nat, tick: Tick): seq<Worker> {
    if workers == [] then []
    else Replacements(workers[1..], generation, tick)
         + (if workers[0].id in tick.exited then [Respawned(workers[0], generation, tick)] else [])
  }

  function Swept(workers: seq<Worker>, generation: nat, tick: Tick): seq<Worker> {
    Survivors(workers, tick) + Replacements(workers, generation, tick)
  }

  lemma IdsAppend(a: seq<Worker>, b: seq<Worker>)
    ensures Ids(a + b) == Ids(a) + Ids(b)
  {
  }

  lemma SweptStep(head: Worker, tail: seq<Worker>, generation: nat, tick: Tick)
    ensures Swept([head] + tail, generation, tick) ==
      if head.id in tick.exited then Swept(tail, generation, tick) + [Respawned(head, generation, tick)]
      else [head] + Swept(tail, generation, tick)
  {
    assert ([head] + tail)[1..] == tail;
  }

  lemma {:induction false} SweepKeepsIds(workers: seq<Worker>, generation: nat, tick: Tick)
    ensures multiset(Ids(Swept(workers, generation, tick))) == multiset(Ids(workers))
  {
    if workers == [] {
      assert Swept(workers, generation, tick) == [];
    } else {
      var head, tail := workers[0], workers[1..];
      assert [head] + tail == workers;
      SweptStep(head, tail, generation, tick);
      SweepKeepsIds(tail, generation, tick);
      hide Swept, Ids;
      IdsAppend([head], tail);
      IdsAppend([head], Swept(tail, generation, tick));
      IdsAppend(Swept(tail, generation, tick), [Respawned(head, generation, tick)]);
      IdsOfOne(head, Respawned(head, generation, tick));
    }
  }

  /** What a tick leaves of one worker: itself, or a fresh process of the current generation with
  the same identifier and pool. A worker that had run for a minute starts counting failures at
  one again. */
  function AfterTick(w: Worker, generation: nat, tick: Tick): Worker {
    if w.id !in tick.exited then w
    else if w.id in tick.veterans then Worker(w.id, generation, w.pool, 1)
    else Worker(w.id, generation, w.pool, if w.failures >= 4294967295 then 4294967295 else w.failures + 1)
  }

  lemma AfterTickMeans(w: Worker, generation: nat, tick: Tick)
    ensures AfterTick(w, generation, tick) == if w.id in tick.exited then Respawned(w, generation, tick) else w
  {
  }

  lemma {:induction false} SweepReplacesExactly(workers: seq<Worker>, generation: nat, tick: Tick, k: nat)
    requires k < |workers|
    ensures AfterTick(workers[k], generation, tick) in Swept(workers, generation, tick)
  {
    var head, tail := workers[0], workers[1..];
    assert [head] + tail == workers;
    hide Swept, AfterTick, Respawned;
    SweptStep(head, tail, generation, tick);
    AfterTickMeans(head, generation, tick);
    var rest, swept := Swept(tail, generation, tick), Swept(workers, generation, tick);
    if k > 0 {
      SweepReplacesExactly(tail, generation, tick, k - 1);
      var j :| 0 <= j < |rest| && rest[j] == AfterTick(workers[k], generation, tick);
      assert swept[if head.id in tick.exited then j else j + 1] == rest[j];
    } else {
      assert swept[if head.id in tick.exited then |rest| else 0] == AfterTick(head, generation, tick);
    }
  }

  /** A worker that keeps crashing within a minute: its replacements count every crash. */
  function Crashed(w: Worker, generation: nat, ticks: seq<Tick>): Worker
    decreases |ticks|
  {
    if ticks == [] then w else Crashed(Respawned(w, generation, ticks[0]), generation, ticks[1..])
  }

  lemma {:induction false} CrashesAddUp(w: Worker, generation: nat, ticks: seq<Tick>)
    requires w.failures <= MAX_FAILURES && forall i :: 0 <= i < |ticks| ==> w.id !in ticks[i].veterans
    ensures Crashed(w, generation, ticks).failures == Min(w.failures + |ticks|, MAX_FAILURES)
    ensures Crashed(w, generation, ticks).id == w.id && Crashed(w, generation, ticks).pool == w.pool
    decreases |ticks|
  {
    if ticks != [] {
      assert forall i :: 0 <= i < |ticks[1..]| ==> ticks[1..][i] == ticks[i + 1];
      CrashesAddUp(Respawned(w, generation, ticks[0]), generation, ticks[1..]);
    }
  }

  lemma RespawnedIsPlaced(w: Worker, slots: seq<Option<Pool>>, generation: nat, tick: Tick)
    requires Placed(w, slots, generation)
    ensures Placed(Respawned(w, generation, tick), slots, generation)
  {
  }

  lemma {:induction false} SweepKeepsPlaces(workers: seq<Worker>, slots: seq<Option<Pool>>, generation: nat, tick: Tick)
    requires forall w :: w in workers ==> Placed(w, slots, generation)
    ensures forall w :: w in Swept(workers, generation, tick) ==> Placed(w, slots, generation)
  {
    if workers == [] {
      assert Swept(workers, generation, tick) == [];
    } else {
      var head, tail := workers[0], workers[1..];
      assert [head] + tail == workers;
      SweptStep(head, tail, generation, tick);
      SweepKeepsPlaces(tail, slots, generation, tick);
      assert head in workers && Placed(head, slots, generation);
      RespawnedIsPlaced(head, slots, generation, tick);
      hide Swept, Placed, Respawned;
      forall w | w in Swept(workers, generation, tick) ensures Placed(w, slots, generation) {
        assert w == head || w in Swept(tail, generation, tick) || w == Respawned(head, generation, tick);
      }
    }
  }

  lemma IdsOfOne(a: Worker, b: Worker)
    requires a.id == b.id
    ensures Ids([a]) == Ids([b]) == [a.id]
  {
  }

  lemma SweepKeepsStaff(workers: seq<Worker>, slots: seq<Option<Pool>>, generation: nat, tick: Tick)
    requires Staffed(workers, slots, generation)
    ensures Staffed(Swept(workers, generation, tick), slots, generation)
  {
    hide Swept;
    SweepKeepsIds(workers, generation, tick);
    SweepKeepsPlaces(workers, slots, generation, tick);
  }

  // Readiness

  datatype Status = Exited | Starting | Ready

  /** What the readiness poll sees of a worker in a given round. */
  type Probe = (nat, nat) -> Status

  ghost predicate NoneExited(probe: Probe, n: nat, round: nat) { forall i :: 0 <= i < n ==> probe(round, i) != Exited }
  ghost predicate AllReady(probe: Probe, n: nat, round: nat) { forall i :: 0 <= i < n ==> probe(round, i) == Ready }

  /** Some round before the deadline saw every worker ready, and no round up to it saw one exit. */
  ghost predicate BecomesReady(probe: Probe, n: nat, rounds: nat) {
    exists r :: 0 <= r <= rounds && AllReady(probe, n, r) && forall q :: 0 <= q < r ==> NoneExited(probe, n, q)
  }

  /** `wait_generation_ready`, where the deadline is seen to have passed in round `rounds`. */
  method WaitGenerationReady(n: nat, probe: Probe, rounds: nat) returns (ok: bool)
    ensures ok <==> BecomesReady(probe, n, rounds)
  {
    var round := 0;
    while true
      invariant 0 <= round <= rounds
      invariant forall q :: 0 <= q < round ==> NoneExited(probe, n, q) && !AllReady(probe, n, q)
      decreases rounds - round
    {
      var ready := 0;
      for i := 0 to n
        invariant 0 <= ready <= i
        invariant forall k :: 0 <= k < i ==> probe(round, k) != Exited
        invariant ready == i <==> forall k :: 0 <= k < i ==> probe(round, k) == Ready
      {
        if probe(round, i) == Exited {
          assert !NoneExited(probe, n, round) && !AllReady(probe, n, round);
          return false;
        }
        if probe(round, i) == Ready {
          ready := ready + 1;
        }
      }
      if ready == n {
        assert AllReady(probe, n, round);
        return true;
      }
      assert !AllReady(probe, n, round);
      if round >= rounds {
        return false;
      }
      round := round + 1;
    }
  }

  /** None of the first `n` identifiers is one that cannot be spawned. */
  predicate CanSpawn(n: nat, unspawnable: set<nat>) {
    forall id :: 1 <= id <= n ==> id !in unspawnable
  }

  /** Every exited worker can be spawned again. */
  predicate CanRespawn(workers: seq<Worker>, tick: Tick) {
    forall k :: 0 <= k < |workers| && workers[k].id in tick.exited ==> workers[k].id !in tick.unspawnable
  }

  /** The sweep has done everything from `index` on, and nothing before it. */
  ghost predicate Halfway(workers: seq<Worker>, before: seq<Worker>, index: nat, generation: nat, tick: Tick) {
    && index <= |before| == |workers|
    && workers[..index] == before[..index]
    && workers[index..] == Swept(before[index..], generation, tick)
  }

  lemma {:induction false} SweepOne(workers: seq<Worker>, before: seq<Worker>, index: nat, generation: nat, tick: Tick)
    requires index < |before| && Halfway(workers, before, index + 1, generation, tick)
    ensures workers[index] == before[index]
    ensures
      var w := workers[index];
      var moved := workers[..index] + workers[index + 1..] + [Respawned(w, generation, tick)];
      Halfway(if w.id in tick.exited then moved else workers, before, index, generation, tick)
  {
    hide Swept, Respawned;
    var w, tail := workers[index], before[index + 1..];
    assert w == workers[..index + 1][index] == before[..index + 1][index] == before[index];
    assert workers[..index] == workers[..index + 1][..index] == before[..index + 1][..index] == before[..index];
    assert before[index..] == [w] + tail;
    SweptStep(w, tail, generation, tick);
    if w.id in tick.exited {
      RemovePush(workers, index, Respawned(w, generation, tick));
    } else {
      assert workers[index..] == [w] + workers[index + 1..];
    }
  }

  /** The backward sweep with remove and push inspects every old worker exactly once, in
  descending order, and no new one. `ok` is false when a spawn fails. */
  method SweepWorkers(before: seq<Worker>, generation: nat, tick: Tick)
    returns (ok: bool, workers: seq<Worker>, inspected: seq<nat>)
    ensures ok ==> workers == Swept(before, generation, tick)
    ensures ok ==> inspected == Reversed(Ids(before))
    ensures ok <==> CanRespawn(before, tick)
  {
    workers, inspected := before, [];
    var n := |before|;
    NothingSwept(before[n..], generation, tick);
    assert Halfway(workers, before, n, generation, tick);
    hide Swept, Ids, Reversed, Respawned, Halfway;
    for index := n downto 0
      invariant Halfway(workers, before, index, generation, tick) && |workers| == n
      invariant inspected == Reversed(Ids(before[index..]))
      invariant forall k :: index <= k < n && before[k].id in tick.exited ==> before[k].id !in tick.unspawnable
    {
      SweepOne(workers, before, index, generation, tick);
      var worker := workers[index];
      assert before[index..] == [worker] + before[index + 1..];
      InspectOne(worker, before[index + 1..]);
      inspected := inspected + [worker.id];
      if worker.id in tick.exited {
        var left := workers[..index] + workers[index + 1..];
        if worker.id in tick.unspawnable {
          return false, left, inspected;
        }
        workers := left + [Respawned(worker, generation, tick)];
      }
    }
    SweptAll(workers, before, generation, tick);
    assert before[0..] == before;
    ok := true;
  }

  lemma SweptAll(workers: seq<Worker>, before: seq<Worker>, generation: nat, tick: Tick)
    requires Halfway(workers, before, 0, generation, tick)
    ensures workers == Swept(before, generation, tick)
  {
    assert workers[0..] == workers && before[0..] == before;
  }

  lemma RemovePush(workers: seq<Worker>, index: nat, renewed: Worker)
    requires index < |workers|
    ensures var moved := workers[..index] + workers[index + 1..] + [renewed];
      |moved| == |workers| && moved[..index] == workers[..index] && moved[index..] == workers[index + 1..] + [renewed]
  {
  }

  lemma NothingSwept(none: seq<Worker>, generation: nat, tick: Tick)
    requires none == []
    ensures Swept(none, generation, tick) == [] && Reversed(Ids(none)) == []
  {
  }

  class Supervisor {
    const config: Config
    var generation: nat
    var workers: seq<Worker>

    ghost predicate Valid() reads this {
      Staffed(workers, Assignment(config), generation)
    }

    /** The first generation, before its readiness is awaited. */
    constructor (config: Config)
      ensures this.config == config && generation == 1 && Valid()
    {
      this.config := config;
      generation := 1;
      new;
      var spawned := SpawnGeneration(1, {});
      workers := spawned.value;
      HiredAreStaffed(Assignment(config), 1);
    }

    /** `None` when a worker cannot be spawned. */
    method SpawnGeneration(next: nat, unspawnable: set<nat>) returns (spawned: Option<seq<Worker>>)
      ensures spawned.Some? <==> CanSpawn(|Assignment(config)|, unspawnable)
      ensures spawned.Some? ==> spawned.value == Hired(Assignment(config), next)
    {
      var found: seq<Worker> := [];
      if config.pools == [] {
        for id := 1 to config.workers + 1
          invariant found == Hired(Repeat(None, id - 1), next) && CanSpawn(id - 1, unspawnable)
        {
          if id in unspawnable {
            return None;
          }
          found := found + [Worker(id, next, None, 0)];
        }
        return Some(found);
      }
      var id := 0;
      assert Slots(config.pools[..0]) == [] by { assert config.pools[..0] == []; }
      hide Slots;
      for i := 0 to |config.pools|
        invariant id == |found| && found == Hired(Slots(config.pools[..i]), next) && CanSpawn(id, unspawnable)
      {
        var pool := config.pools[i];
        ghost var before := Slots(config.pools[..i]);
        assert before + Repeat(Some(pool), 0) == before;
        SlotsCover(config.pools, i);
        for k := 0 to pool.workers
          invariant id == |found| && found == Hired(before + Repeat(Some(pool), k), next) && CanSpawn(id, unspawnable)
        {
          id := id + 1;
          if id in unspawnable {
            return None;
          }
          assert before + Repeat(Some(pool), k + 1) == before + Repeat(Some(pool), k) + [Some(pool)];
          found := found + [Worker(id, next, Some(pool), 0)];
        }
        SlotsSnoc(config.pools[..i], pool);
        assert config.pools[..i] + [pool] == config.pools[..i + 1];
      }
      assert config.pools[..|config.pools|] == config.pools;
      return Some(found);
    }

    /** A reload replaces the staff and raises the generation exactly when every replacement
    became ready; otherwise nothing changes. A spawn that fails (`None`) ends the supervisor. */
    method Reload(unspawnable: set<nat>, probe: Probe, rounds: nat) returns (activated: Option<bool>)
      requires Valid()
      modifies this
      ensures Valid()
      ensures activated.Some? <==> CanSpawn(|Assignment(config)|, unspawnable)
      ensures activated.Some? ==> (activated.value <==> BecomesReady(probe, |Assignment(config)|, rounds))
      ensures generation == old(generation) + (if activated == Some(true) then 1 else 0)
      ensures workers == if activated == Some(true) then Hired(Assignment(config), generation) else old(workers)
    {
      var next := generation + 1;
      var replacements := SpawnGeneration(next, unspawnable);
      if replacements.None? {
        return None;
      }
      var ready := WaitGenerationReady(|replacements.value|, probe, rounds);
      if ready {
        generation, workers := next, replacements.value;
        HiredAreStaffed(Assignment(config), next);
      }
      return Some(ready);
    }

    /** A tick keeps the staffing invariant; it fails only when a spawn does, which ends
    the supervisor. */
    method Check(tick: Tick) returns (ok: bool)
      requires Valid()
      modifies `workers
      ensures ok ==> Valid() && workers == Swept(old(workers), generation, tick)
      ensures ok <==> CanRespawn(old(workers), tick)
    {
      hide Swept, Staffed, Assignment;
      var swept, inspected;
      ok, swept, inspected := SweepWorkers(workers, generation, tick);
      if ok {
        SweepKeepsStaff(workers, Assignment(config), generation, tick);
      }
      workers := swept;
    }
  }

  lemma InspectOne(w: Worker, tail: seq<Worker>)
    ensures Reversed(Ids([w] + tail)) == Reversed(Ids(tail)) + [w.id]
  {
    assert Ids([w] + tail) == [w.id] + Ids(tail);
    ReversedCons(w.id, Ids(tail));
  }

  lemma {:induction false} SlotsSnoc(pools: seq<Pool>, pool: Pool)
    ensures Slots(pools + [pool]) == Slots(pools) + Repeat(Some(pool), pool.workers)
  {
    if pools == [] {
      assert pools + [pool] == [pool];
    } else {
      SlotsSnoc(pools[1..], pool);
      assert (pools + [pool])[1..] == pools[1..] + [pool];
    }
  }

  lemma {:induction false} SlotsCover(pools: seq<Pool>, i: nat)
    requires i < |pools|
    ensures |Slots(pools[..i])| + pools[i].workers <= |Slots(pools)|
  {
    if i > 0 {
      SlotsCover(pools[1..], i - 1);
      assert pools[..i][1..] == pools[1..][..i - 1];
    }
  }

  // Whole runs

  datatype Event = Ticked(tick: Tick) | Reloaded(unspawnable: set<nat>, probe: Probe, rounds: nat)

  datatype State = State(generation: nat, workers: seq<Worker>)

  /** `None`: a worker could not be spawned, which ends the supervisor. */
  ghost function After(s: State, slots: seq<Option<Pool>>, event: Event): Option<State> {
    match event
    case Ticked(tick) =>
      if CanRespawn(s.workers, tick) then Some(s.(workers := Swept(s.workers, s.generation, tick))) else None
    case Reloaded(unspawnable, probe, rounds) =>
      if !CanSpawn(|slots|, unspawnable) then None
      else if BecomesReady(probe, |slots|, rounds) then Some(State(s.generation + 1, Hired(slots, s.generation + 1)))
      else Some(s)
  }

  ghost function Run(s: State, slots: seq<Option<Pool>>, events: seq<Event>): Option<State>
    decreases |events|
  {
    if events == [] then Some(s)
    else
      match After(s, slots, events[0])
      case None => None
      case Some(s1) => Run(s1, slots, events[1..])
  }

  ghost function Activations(slots: seq<Option<Pool>>, events: seq<Event>): nat {
    if events == [] then 0
    else (if events[0].Reloaded? && BecomesReady(events[0].probe, |slots|, events[0].rounds) then 1 else 0)
         + Activations(slots, events[1..])
  }

  /** After every sequence of ticks and successful or failed reloads that does not end the
  supervisor, the staff is the configured one in the current generation, and the generation
  has risen by one for each reload whose replacements all became ready. */
  lemma {:induction false} EveryRunIsStaffed(s: State, slots: seq<Option<Pool>>, events: seq<Event>)
    requires Staffed(s.workers, slots, s.generation)
    ensures var end := Run(s, slots, events);
      end.Some? ==>
        && Staffed(end.value.workers, slots, end.value.generation)
        && end.value.generation == s.generation + Activations(slots, events)
    decreases |events|
  {
    hide Staffed, Swept, BecomesReady, CanSpawn, CanRespawn;
    if events != [] && After(s, slots, events[0]).Some? {
      match events[0] {
        case Ticked(tick) => SweepKeepsStaff(s.workers, slots, s.generation, tick);
        case Reloaded(_, _, _) => HiredAreStaffed(slots, s.generation + 1);
      }
      EveryRunIsStaffed(After(s, slots, events[0]).value, slots, events[1..]);
    }
  }

  /** A run ends the supervisor exactly when, at some event, an exited worker cannot be spawned
  again or a replacement cannot be spawned; what comes later does not matter. */
  lemma {:induction false} EndsExactlyWhen(s: State, slots: seq<Option<Pool>>, events: seq<Event>)
    ensures Run(s, slots, events).None? <==>
            exists k :: 0 <= k < |events| && Run(s, slots, events[..k]).Some?
                        && Stops(Run(s, slots, events[..k]).value, slots, events[k])
    decreases |events|
  {
    hide CanSpawn, CanRespawn, Swept, BecomesReady;
    if events != [] {
      assert events[..0] == [];
      var next := After(s, slots, events[0]);
      if next.None? {
        assert Stops(Run(s, slots, events[..0]).value, slots, events[0]);
      } else {
        EndsExactlyWhen(next.value, slots, events[1..]);
        forall k | 0 < k < |events| ensures Run(s, slots, events[..k]) == Run(next.value, slots, events[1..][..k - 1]) {
          assert events[..k][0] == events[0] && events[..k][1..] == events[1..][..k - 1];
        }
        if Run(s, slots, events).None? {
          var j :| 0 <= j < |events[1..]| && Run(next.value, slots, events[1..][..j]).Some?
                   && Stops(Run(next.value, slots, events[1..][..j]).value, slots, events[1..][j]);
          var reached := Run(s, slots, events[..j + 1]);
          assert reached.Some? && Stops(reached.value, slots, events[j + 1]);
        } else {
          forall k | 0 <= k < |events| && Run(s, slots, events[..k]).Some?
            ensures !Stops(Run(s, slots, events[..k]).value, slots, events[k])
          {
            assert k > 0 ==> events[1..][k - 1] == events[k];
          }
        }
      }
    }
  }

  ghost predicate Stops(s: State, slots: seq<Option<Pool>>, event: Event) {
    if event.Ticked? then !CanRespawn(s.workers, event.tick) else !CanSpawn(|slots|, event.unspawnable)
  }
}
