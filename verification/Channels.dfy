/** The cooperative channel and mutex.

Their methods only yield at `delay`, so an interleaving is a sequence of attempts: one pass
through a wait loop, from one suspension point to the next. */
module Channels {
  import opened Text

  // Channel

  datatype Op<T> = Sending(value: T) | Receiving

  /** `sent` and `received` record every value accepted and handed out, `ops` the calls in
  progress, and `nulls` how many receivers were told that the channel is exhausted. */
  datatype State<T> = State(
    capacity: nat, queue: seq<T>, closed: bool, ops: map<nat, Op<T>>, sent: seq<T>, received: seq<T>, nulls: nat)

  datatype Action<T> = Call(process: nat, op: Op<T>) | Attempt(process: nat) | Close

  predicate Full<T>(s: State<T>) { s.capacity > 0 && |s.queue| >= s.capacity }

  function Step<T>(s: State<T>, a: Action<T>): State<T> {
    match a
    case Call(p, op) => if p in s.ops then s else s.(ops := s.ops[p := op])
    case Close => s.(closed := true)
    case Attempt(p) =>
      if p !in s.ops then s
      else
        var finished := s.(ops := s.ops - {p});
        match s.ops[p]
        case Sending(value) =>
          if s.closed then finished
          else if Full(s) then s
          else finished.(queue := s.queue + [value], sent := s.sent + [value])
        case Receiving =>
          if s.queue != [] then finished.(queue := s.queue[1..], received := s.received + [s.queue[0]])
          else if s.closed then finished.(nulls := s.nulls + 1)
          else s
  }

  function Run<T>(s: State<T>, actions: seq<Action<T>>): State<T>
    decreases |actions|
  {
    if actions == [] then s else Run(Step(s, actions[0]), actions[1..])
  }

  /** Received followed by queued is what was sent, in order; a bounded channel is never
  over its capacity; and nobody is told the channel is exhausted before it is. */
  ghost predicate Inv<T>(s: State<T>) {
    && s.sent == s.received + s.queue
    && (s.capacity > 0 ==> |s.queue| <= s.capacity)
    && (s.nulls > 0 ==> s.closed && s.queue == [])
  }

  lemma StepKeepsInv<T>(s: State<T>, a: Action<T>)
    requires Inv(s)
    ensures Inv(Step(s, a))
    ensures Step(s, a).capacity == s.capacity
    ensures s.closed ==> Step(s, a).closed && Step(s, a).sent == s.sent
    ensures s.received <= Step(s, a).received && s.sent <= Step(s, a).sent && s.nulls <= Step(s, a).nulls
  {
    if a.Attempt? && a.process in s.ops && s.ops[a.process].Receiving? && s.queue != [] {
      assert s.queue == [s.queue[0]] + s.queue[1..];
      Associate(s.received, [s.queue[0]], s.queue[1..]);
    } else if a.Attempt? && a.process in s.ops && s.ops[a.process].Sending? {
      Associate(s.received, s.queue, [s.ops[a.process].value]);
    }
  }

  /** Under every interleaving of any number of senders, receivers and closers: order is
  kept, nothing is lost or duplicated, nothing is accepted after closing, and once a receiver
  has been told that the channel is exhausted every value ever accepted has been received. The
  source tells it with null, which a receiver can tell from a value only if none is null. */
  lemma {:induction false} EveryRunIsFifo<T>(s: State<T>, actions: seq<Action<T>>)
    requires Inv(s)
    ensures var end := Run(s, actions);
      && Inv(end) && end.capacity == s.capacity
      && s.received <= end.received && s.sent <= end.sent && s.nulls <= end.nulls
      && (s.closed ==> end.closed && end.sent == s.sent)
      && (s.nulls > 0 ==> end.received == end.sent == s.sent)
    decreases |actions|
  {
    hide Step;
    if actions != [] {
      StepKeepsInv(s, actions[0]);
      EveryRunIsFifo(Step(s, actions[0]), actions[1..]);
    }
  }

  class Channel<T> {
    const capacity: nat
    var values: seq<T>
    var closed: bool
    ghost var ops: map<nat, Op<T>>
    ghost var sent: seq<T>
    ghost var received: seq<T>
    ghost var nulls: nat

    ghost function View(): State<T> reads this { State(capacity, values, closed, ops, sent, received, nulls) }

    constructor (capacity: nat)
      ensures View() == State(capacity, [], false, map[], [], [], 0) && Inv(View())
    {
      this.capacity := capacity;
      values, closed, ops, sent, received, nulls := [], false, map[], [], [], 0;
    }

    /** One pass of `send`: `None` suspends, `Some(false)` throws. */
    method TrySend(ghost process: nat, value: T) returns (accepted: Option<bool>)
      requires process in ops && ops[process] == Sending(value)
      modifies this
      ensures View() == Step(old(View()), Attempt(process))
      ensures accepted.None? <==> !old(closed) && capacity > 0 && |old(values)| >= capacity
      ensures accepted == Some(false) <==> old(closed)
      ensures accepted == Some(true) ==> values == old(values) + [value] && sent == old(sent) + [value]
      ensures accepted != Some(true) ==> values == old(values) && sent == old(sent)
      ensures closed == old(closed) && received == old(received) && nulls == old(nulls)
      ensures ops == if accepted.None? then old(ops) else old(ops) - {process}
    {
      if !closed && capacity > 0 && |values| >= capacity {
        return None;
      }
      ops := ops - {process};
      if closed {
        return Some(false);
      }
      values, sent := values + [value], sent + [value];
      return Some(true);
    }

    /** One pass of `receive`: `None` suspends, `Some(None)` is null. */
    method TryReceive(ghost process: nat) returns (result: Option<Option<T>>)
      requires process in ops && ops[process].Receiving?
      modifies this
      ensures View() == Step(old(View()), Attempt(process))
      ensures result.None? <==> old(values) == [] && !old(closed)
      ensures result == Some(None) <==> old(values) == [] && old(closed)
      ensures old(values) != [] ==> result == Some(Some(old(values)[0]))
      ensures old(values) != [] ==> values == old(values)[1..] && received == old(received) + [old(values)[0]]
      ensures old(values) == [] ==> values == [] && received == old(received)
      ensures closed == old(closed) && sent == old(sent)
      ensures nulls == old(nulls) + (if result == Some(None) then 1 else 0)
      ensures ops == if result.None? then old(ops) else old(ops) - {process}
    {
      if values == [] {
        if !closed {
          return None;
        }
        ops, nulls := ops - {process}, nulls + 1;
        return Some(None);
      }
      result := Some(Some(values[0]));
      ops, received := ops - {process}, received + [values[0]];
      values := values[1..];
    }

    method CloseChannel()
      modifies `closed
      ensures closed && View() == Step(old(View()), Close)
    {
      closed := true;
    }
  }

  // What an attempt does, in terms of what is in the channel

  /** A call ends, and a value moves, exactly when the channel lets it. */
  lemma AttemptMeans<T>(s: State<T>, p: nat)
    requires Inv(s) && p in s.ops
    ensures
      var s1 := Step(s, Attempt(p));
      && s1.closed == s.closed
      && (s.ops[p].Sending? && !s.closed && (s.capacity == 0 || |s.sent| < |s.received| + s.capacity) ==>
            p !in s1.ops && s1.sent == s.sent + [s.ops[p].value] && s1.received == s.received)
      && (s.ops[p].Sending? && !s.closed && s.capacity > 0 && |s.sent| >= |s.received| + s.capacity ==> s1 == s)
      && (s.ops[p].Sending? && s.closed ==> p !in s1.ops && s1.sent == s.sent && s1.received == s.received)
      && (s.ops[p].Receiving? && |s.received| < |s.sent| ==>
            p !in s1.ops && s1.sent == s.sent && s1.received == s.sent[..|s.received| + 1] && s1.nulls == s.nulls)
      && (s.ops[p].Receiving? && s.received == s.sent && s.closed ==> p !in s1.ops && s1.nulls == s.nulls + 1)
      && (s.ops[p].Receiving? && s.received == s.sent && !s.closed ==> s1 == s)
  {
    assert |s.queue| == |s.sent| - |s.received|;
    if s.queue != [] { assert s.sent[..|s.received| + 1] == s.received + [s.queue[0]]; }
    assert s.received == s.sent <==> s.queue == [] by {
      if s.queue == [] { assert s.received + [] == s.received; }
    }
  }

  // Mutex

  datatype Lock = Lock(locked: bool, waiting: set<nat>, inside: set<nat>)

  /** A process arrives, tries the lock once, or leaves its operation by returning or throwing. */
  datatype LockAction = Arrive(process: nat) | Try(process: nat) | Leave(process: nat)

  function LockStep(l: Lock, a: LockAction): Lock {
    match a
    case Arrive(p) => if p in l.inside then l else l.(waiting := l.waiting + {p})
    case Try(p) => if p in l.waiting && !l.locked then Lock(true, l.waiting - {p}, l.inside + {p}) else l
    case Leave(p) => if p in l.inside then Lock(false, l.waiting, l.inside - {p}) else l
  }

  function LockRun(l: Lock, actions: seq<LockAction>): Lock
    decreases |actions|
  {
    if actions == [] then l else LockRun(LockStep(l, actions[0]), actions[1..])
  }

  /** The flag is set exactly while one process is inside. */
  ghost predicate Exclusive(l: Lock) {
    && |l.inside| <= 1
    && (l.locked <==> |l.inside| == 1)
    && l.waiting !! l.inside
  }

  lemma LockStepIsExclusive(l: Lock, a: LockAction)
    requires Exclusive(l)
    ensures Exclusive(LockStep(l, a))
  {
    if a.Leave? && a.process in l.inside {
      assert |l.inside - {a.process}| == |l.inside| - 1;
    }
  }

  /** At most one operation is inside the mutex, across suspensions and exceptions. */
  lemma {:induction false} EveryRunIsExclusive(l: Lock, actions: seq<LockAction>)
    requires Exclusive(l)
    ensures Exclusive(LockRun(l, actions))
    decreases |actions|
  {
    hide LockStep, Exclusive;
    if actions != [] {
      LockStepIsExclusive(l, actions[0]);
      EveryRunIsExclusive(LockStep(l, actions[0]), actions[1..]);
    }
  }

  class Mutex {
    var locked: bool
    ghost var waiting: set<nat>
    ghost var inside: set<nat>

    ghost function View(): Lock reads this { Lock(locked, waiting, inside) }

    constructor ()
      ensures View() == Lock(false, {}, {}) && Exclusive(View())
    {
      locked, waiting, inside := false, {}, {};
    }

    /** One pass of the wait loop of `synchronized`. */
    method TryEnter(ghost process: nat) returns (entered: bool)
      requires Exclusive(View()) && process in waiting
      modifies this
      ensures View() == LockStep(old(View()), Try(process)) && Exclusive(View())
      ensures entered <==> old(inside) == {}
      ensures entered ==> inside == {process} && waiting == old(waiting) - {process}
      ensures !entered ==> inside == old(inside) && waiting == old(waiting)
    {
      LockStepIsExclusive(View(), Try(process));
      if locked {
        return false;
      }
      assert |inside| == 0;
      locked, waiting, inside := true, waiting - {process}, inside + {process};
      return true;
    }

    /** The `finally` block, however the operation ended. */
    method Exit(ghost process: nat)
      requires Exclusive(View()) && process in inside
      modifies this
      ensures View() == LockStep(old(View()), Leave(process)) && Exclusive(View())
      ensures inside == {} && !locked && waiting == old(waiting)
    {
      LockStepIsExclusive(View(), Leave(process));
      assert |inside - {process}| == 0;
      locked, inside := false, inside - {process};
    }
  }
}
