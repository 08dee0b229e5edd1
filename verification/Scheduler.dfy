/** Futures and the cooperative scheduler.

A run is any sequence of the scheduler's operations, issued by whatever code currently has
control: the root, or the Fiber on top of the stack of Fibers that have advanced one
another. Nested awaits are the runs in which that stack is deeper than one. */
module Scheduler {
  import opened Text

  datatype Status = Pending | Running | Fulfilled | Rejected | Cancelled

  datatype Fiber = NotStarted | Active | Suspended | Terminated

  datatype Future = Future(status: Status, fiber: Fiber, resumeAt: int)

  /** A running `advance` call: its future and the time it was given. */
  datatype Frame = Frame(id: nat, now: int)

  datatype State = State(futures: map<nat, Future>, table: map<string, set<nat>>, stack: seq<Frame>, clock: int)

  datatype Action =
    | Create(id: nat, scope: string)
    | Advance(id: nat, now: int)
    | Suspend(due: Option<int>)          // None: suspended with something that is not a Suspension
    | Finish(fulfilled: bool)
    | Cancel(id: nat, scope: string)     // issued by code running in the given scope
    | Reset(scope: string)
    | Forget(id: nat, scope: string)     // the await loop drops a completed future
    | Pass(clock: int)

  predicate Complete(f: Future) { f.status.Fulfilled? || f.status.Rejected? || f.status.Cancelled? }

  function Registered(s: State, scope: string): set<nat> {
    if scope in s.table then s.table[scope] else {}
  }

  /** `unset($futures[$scope][$id])`, dropping a scope that is left empty. */
  function Unregistered(table: map<string, set<nat>>, id: nat, scope: string): map<string, set<nat>> {
    if scope !in table then table
    else if table[scope] - {id} == {} then table - {scope}
    else table[scope := table[scope] - {id}]
  }

  function CancelOne(f: Future): Future { if Complete(f) then f else f.(status := Cancelled) }

  predicate Enabled(s: State, a: Action) {
    match a
    case Create(id, _) => id !in s.futures
    case Advance(id, now) => id in s.futures && now <= s.clock
    case Suspend(_) => s.stack != [] && s.stack[|s.stack| - 1].id in s.futures
    case Finish(_) => s.stack != [] && s.stack[|s.stack| - 1].id in s.futures
    case Cancel(id, _) => id in s.futures
    case Reset(_) => true
    case Forget(id, _) => id in s.futures && Complete(s.futures[id])
    case Pass(clock) => clock >= s.clock
  }

  /** Whether `advance` gives control to the Fiber. */
  predicate Runs(f: Future, now: int) {
    !Complete(f) && f.resumeAt <= now && (f.status.Pending? || f.fiber.Suspended?)
  }

  function Step(s: State, a: Action): State
    requires Enabled(s, a)
  {
    match a
    case Create(id, scope) =>
      s.(futures := s.futures[id := Future(Pending, NotStarted, 0)],
         table := s.table[scope := Registered(s, scope) + {id}])
    case Advance(id, now) =>
      var f := s.futures[id];
      if Runs(f, now) then
        s.(futures := s.futures[id := f.(status := Running, fiber := Active)], stack := s.stack + [Frame(id, now)])
      else s
    case Suspend(due) =>
      var top := s.stack[|s.stack| - 1];
      var resumeAt := if due.Some? then due.value else top.now;
      s.(futures := s.futures[top.id := s.futures[top.id].(fiber := Suspended, resumeAt := resumeAt)],
         stack := s.stack[..|s.stack| - 1])
    case Finish(fulfilled) =>
      var top := s.stack[|s.stack| - 1];
      s.(futures := s.futures[top.id := Future(if fulfilled then Fulfilled else Rejected, Terminated, top.now)],
         stack := s.stack[..|s.stack| - 1])
    case Cancel(id, scope) =>
      s.(futures := s.futures[id := CancelOne(s.futures[id])], table := Unregistered(s.table, id, scope))
    case Reset(scope) =>
      s.(futures := map id | id in s.futures ::
                      if id in Registered(s, scope) then CancelOne(s.futures[id]) else s.futures[id],
         table := s.table - {scope})
    case Forget(id, scope) =>
      s.(table := if scope in s.table then s.table[scope := s.table[scope] - {id}] else s.table)
    case Pass(clock) => s.(clock := clock)
  }

  // The invariant

  predicate OnStack(s: State, id: nat) { exists i :: 0 <= i < |s.stack| && s.stack[i].id == id }

  /** The status each Fiber state allows. */
  predicate Consistent(f: Future) {
    match f.fiber
    case NotStarted => (f.status.Pending? || f.status.Cancelled?) && f.resumeAt == 0
    case Active => f.status.Running? || f.status.Cancelled?
    case Suspended => f.status.Running? || f.status.Cancelled?
    case Terminated => f.status.Fulfilled? || f.status.Rejected?
  }

  ghost predicate Inv(s: State) {
    && (forall i, j :: 0 <= i < j < |s.stack| ==> s.stack[i].id != s.stack[j].id)
    && (forall i :: 0 <= i < |s.stack| ==> s.stack[i].id in s.futures && s.stack[i].now <= s.clock)
    && (forall id :: id in s.futures ==> Consistent(s.futures[id]) && (s.futures[id].fiber.Active? <==> OnStack(s, id)))
  }

  /** Every future is registered in at most one scope. */
  ghost predicate OneScopeEach(s: State) {
    && (forall a, b :: a in s.table && b in s.table && a != b ==> s.table[a] !! s.table[b])
    && (forall scope :: scope in s.table ==> s.table[scope] <= s.futures.Keys)
  }

  lemma StepKeepsScopes(s: State, a: Action)
    requires OneScopeEach(s) && Enabled(s, a)
    ensures OneScopeEach(Step(s, a))
  {
    var s1 := Step(s, a);
    forall x, y | x in s1.table && y in s1.table && x != y ensures s1.table[x] !! s1.table[y] {
      assert Registered(s, x) !! Registered(s, y);
    }
  }

  lemma PushKeepsInv(s: State, id: nat, now: int)
    requires Inv(s) && id in s.futures && now <= s.clock && Runs(s.futures[id], now)
    ensures Inv(Step(s, Advance(id, now)))
  {
    var s1 := Step(s, Advance(id, now));
    assert !OnStack(s, id);
    forall k | k in s1.futures ensures s1.futures[k].fiber.Active? <==> OnStack(s1, k) {
      if OnStack(s, k) {
        var i :| 0 <= i < |s.stack| && s.stack[i].id == k;
        assert s1.stack[i].id == k;
      }
      if k == id { assert s1.stack[|s.stack|].id == k; }
    }
  }

  lemma PopKeepsInv(s: State, s1: State, f: Future)
    requires Inv(s) && s.stack != []
    requires !f.fiber.Active? && Consistent(f)
    requires s1 == s.(futures := s.futures[s.stack[|s.stack| - 1].id := f], stack := s.stack[..|s.stack| - 1])
    ensures Inv(s1)
  {
    var top := s.stack[|s.stack| - 1].id;
    forall k | k in s1.futures ensures Consistent(s1.futures[k]) && (s1.futures[k].fiber.Active? <==> OnStack(s1, k)) {
      if OnStack(s1, k) {
        var i :| 0 <= i < |s1.stack| && s1.stack[i].id == k;
        assert s.stack[i].id == k;
      }
      if k != top && OnStack(s, k) {
        var i :| 0 <= i < |s.stack| && s.stack[i].id == k;
        assert s1.stack[i].id == k;
      }
    }
  }

  lemma StepKeepsInv(s: State, a: Action)
    requires Inv(s) && Enabled(s, a)
    ensures Inv(Step(s, a))
  {
    var s1 := Step(s, a);
    match a
    case Advance(id, now) =>
      if Runs(s.futures[id], now) { PushKeepsInv(s, id, now); }
    case Suspend(due) =>
      PopKeepsInv(s, s1, s1.futures[s.stack[|s.stack| - 1].id]);
    case Finish(fulfilled) =>
      PopKeepsInv(s, s1, s1.futures[s.stack[|s.stack| - 1].id]);
    case _ =>
      assert forall id :: OnStack(s1, id) <==> OnStack(s, id);
  }

  // Runs

  ghost predicate Possible(s: State, actions: seq<Action>)
    decreases |actions|
  {
    actions == [] || (Enabled(s, actions[0]) && Possible(Step(s, actions[0]), actions[1..]))
  }

  ghost function End(s: State, actions: seq<Action>): State
    requires Possible(s, actions)
    decreases |actions|
  {
    if actions == [] then s else End(Step(s, actions[0]), actions[1..])
  }

  const START: State := State(map[], map[], [], 0)

  // The life of one future, as an outside observer sees it

  datatype Event = Started | Resumed(at: int) | Paused(due: int) | Ended(fulfilled: bool) | Dropped

  /** `Doomed`: cancelled while its own Fiber has control, which it may use up but not get back. */
  datatype Phase = Idle | Executing | Doomed | Waiting(due: int) | Over | Violated

  /** What the observer knows: how the Fiber stands, and the status the Future should show. */
  datatype Life = Life(phase: Phase, status: Status)

  function Observe(p: Phase, e: Event): Phase {
    match e
    case Started => if p.Idle? then Executing else Violated
    case Resumed(at) => if p.Waiting? && p.due <= at then Executing else Violated
    case Paused(due) => if p.Executing? then Waiting(due) else if p.Doomed? then Over else Violated
    case Ended(_) => if p.Executing? || p.Doomed? then Over else Violated
    case Dropped => if p.Idle? || p.Waiting? then Over else if p.Executing? then Doomed else Violated
  }

  function Live(l: Life, e: Event): Life {
    var status :=
      match e
      case Started => Running
      case Resumed(_) => Running
      case Paused(_) => l.status
      case Ended(fulfilled) => if fulfilled then Fulfilled else Rejected
      case Dropped => Cancelled;
    Life(Observe(l.phase, e), status)
  }

  /** What a step does to a given future's Fiber, read off the step and the life so far: a
  suspension is due when the Fiber asked for it, or at once. */
  function EventFor(s: State, a: Action, id: nat, l: Life): Option<Event>
    requires Enabled(s, a)
  {
    match a
    case Advance(other, now) =>
      if other != id then None
      else if l.phase.Idle? && now >= 0 then Some(Started)
      else if l.phase.Waiting? && l.phase.due <= now then Some(Resumed(s.clock))
      else None
    case Suspend(due) =>
      var top := s.stack[|s.stack| - 1];
      if top.id == id then Some(Paused(if due.Some? then due.value else top.now)) else None
    case Finish(fulfilled) => if s.stack[|s.stack| - 1].id == id then Some(Ended(fulfilled)) else None
    case Cancel(other, _) => if other == id && Unsettled(l.status) then Some(Dropped) else None
    case Reset(scope) =>
      if id in s.futures && id in Registered(s, scope) && Unsettled(l.status) then Some(Dropped) else None
    case _ => None
  }

  predicate Unsettled(status: Status) { status.Pending? || status.Running? }

  ghost function Watch(s: State, actions: seq<Action>, id: nat, l: Life): Life
    requires Possible(s, actions)
    decreases |actions|
  {
    if actions == [] then l
    else
      var e := EventFor(s, actions[0], id, l);
      Watch(Step(s, actions[0]), actions[1..], id, if e.None? then l else Live(l, e.value))
  }

  function PhaseOf(f: Future): Phase {
    match f.fiber
    case NotStarted => if f.status.Cancelled? then Over else Idle
    case Active => if f.status.Cancelled? then Doomed else Executing
    case Suspended => if f.status.Cancelled? then Over else Waiting(f.resumeAt)
    case Terminated => Over
  }

  function LifeOf(s: State, id: nat): Life {
    if id !in s.futures then Life(Idle, Pending) else Life(PhaseOf(s.futures[id]), s.futures[id].status)
  }

  /** Every step has exactly the effect on a future that its life so far calls for: a future
  that is idle or due gets control when it is advanced, and none other does. */
  lemma StepFollowsLife(s: State, a: Action, id: nat)
    requires Inv(s) && Enabled(s, a)
    ensures
      var l := LifeOf(s, id);
      var e := EventFor(s, a, id, l);
      LifeOf(Step(s, a), id) == if e.None? then l else Live(l, e.value)
  {
    assert s.stack != [] ==> OnStack(s, s.stack[|s.stack| - 1].id);
  }

  /** Over every run, nested awaits and cancellations from inside included, each Fiber is
  started at most once, is resumed only while suspended, not terminal and past the time it
  asked for, and gets no control back after it has ended or been cancelled; and the status of
  each future is what its life makes it. */
  lemma {:induction false} EveryRunIsSafe(s: State, actions: seq<Action>, id: nat)
    requires Inv(s) && OneScopeEach(s) && Possible(s, actions)
    ensures Inv(End(s, actions)) && OneScopeEach(End(s, actions))
    ensures Watch(s, actions, id, LifeOf(s, id)) == LifeOf(End(s, actions), id)
    ensures LifeOf(End(s, actions), id).phase != Violated
    decreases |actions|
  {
    hide Inv, OneScopeEach, LifeOf, EventFor, Step, Enabled;
    if actions == [] {
      assert LifeOf(s, id).phase != Violated by { PhasesAreProper(s, id); }
    } else {
      StepKeepsInv(s, actions[0]);
      StepKeepsScopes(s, actions[0]);
      StepFollowsLife(s, actions[0], id);
      EveryRunIsSafe(Step(s, actions[0]), actions[1..], id);
    }
  }

  lemma PhasesAreProper(s: State, id: nat)
    ensures LifeOf(s, id).phase != Violated
  {
  }

  lemma StartIsSafe()
    ensures Inv(START) && OneScopeEach(START) && forall id :: LifeOf(START, id) == Life(Idle, Pending)
  {
  }

  /** The Fiber that has control after a step: the one a granted advance entered, the one below
  when it suspends or ends, and otherwise the same. */
  lemma ControlMoves(s: State, a: Action)
    requires Inv(s) && Enabled(s, a)
    ensures
      var s1 := Step(s, a);
      if a.Suspend? || a.Finish? then s1.stack == s.stack[..|s.stack| - 1]
      else if a.Advance? && EventFor(s, a, a.id, LifeOf(s, a.id)).Some? then s1.stack == s.stack + [Frame(a.id, a.now)]
      else s1.stack == s.stack
  {
  }

  /** Which futures a scope holds after a step. */
  lemma RegistrationMoves(s: State, a: Action, scope: string)
    requires Enabled(s, a)
    ensures
      Registered(Step(s, a), scope) ==
      match a
      case Create(id, into) => if into == scope then Registered(s, scope) + {id} else Registered(s, scope)
      case Cancel(id, from) => if from == scope then Registered(s, scope) - {id} else Registered(s, scope)
      case Forget(id, from) => if from == scope then Registered(s, scope) - {id} else Registered(s, scope)
      case Reset(which) => if which == scope then {} else Registered(s, scope)
      case _ => Registered(s, scope)
  {
  }

  // Terminal states

  /** A step changes a terminal status only when it finishes the Fiber of that future: the
  future was cancelled while its own Fiber was on the stack. */
  lemma TerminalChangesExactlyWhen(s: State, a: Action, id: nat)
    requires Inv(s) && Enabled(s, a) && id in s.futures && Complete(s.futures[id])
    ensures
      var s1 := Step(s, a);
      && id in s1.futures
      && (s1.futures[id].status != s.futures[id].status <==> a.Finish? && s.stack[|s.stack| - 1].id == id)
  {
    assert s.stack != [] ==> OnStack(s, s.stack[|s.stack| - 1].id);
  }

  /** And a future on the stack becomes terminal only by being cancelled, alone or with its
  scope. */
  lemma OnlyCancelDisturbs(s: State, a: Action, id: nat)
    requires Inv(s) && Enabled(s, a) && id in s.futures && !Complete(s.futures[id])
    requires OnStack(Step(s, a), id) && Complete(Step(s, a).futures[id])
    ensures (a.Cancel? && a.id == id) || (a.Reset? && id in Registered(s, a.scope))
  {
    StepKeepsInv(s, a);
  }

  /** Such a run exists: a future cancelled from inside its own Fiber ends up fulfilled. */
  lemma SelfCancelIsOverwritten(id: nat, scope: string)
    ensures
      var s1 := Step(START, Create(id, scope));
      var s2 := Step(s1, Advance(id, 0));
      var s3 := Step(s2, Cancel(id, scope));
      var s4 := Step(s3, Finish(true));
      s3.futures[id].status == Cancelled && s4.futures[id].status == Fulfilled
  {
    var s1 := Step(START, Create(id, scope));
    var s2 := Step(s1, Advance(id, 0));
    assert s2.stack == [Frame(id, 0)];
  }

  lemma CompleteStaysOff(s: State, a: Action, id: nat)
    requires Inv(s) && Enabled(s, a) && id in s.futures && Complete(s.futures[id]) && !OnStack(s, id)
    ensures !OnStack(Step(s, a), id)
  {
    var s1 := Step(s, a);
    assert forall i :: 0 <= i < |s1.stack| && i < |s.stack| ==> s1.stack[i] == s.stack[i];
  }

  /** Once a future is terminal and its Fiber is off the stack, its status is final, whatever
  the rest of the run does. */
  lemma {:induction false} TerminalIsForever(s: State, actions: seq<Action>, id: nat)
    requires Inv(s) && Possible(s, actions)
    requires id in s.futures && Complete(s.futures[id]) && !OnStack(s, id)
    ensures id in End(s, actions).futures && End(s, actions).futures[id].status == s.futures[id].status
    decreases |actions|
  {
    if actions != [] {
      var a := actions[0];
      TerminalChangesExactlyWhen(s, a, id);
      assert s.stack != [] ==> OnStack(s, s.stack[|s.stack| - 1].id);
      StepKeepsInv(s, a);
      CompleteStaysOff(s, a, id);
      hide Inv, Step, Enabled, OnStack;
      TerminalIsForever(Step(s, a), actions[1..], id);
    }
  }

  // Reset

  /** Resetting a scope empties exactly that scope and cancels exactly its incomplete
  futures. */
  ghost predicate ResetExactly(s: State, scope: string, s1: State) {
    && Registered(s1, scope) == {}
    && (forall other :: other != scope ==> Registered(s1, other) == Registered(s, other))
    && s1.futures.Keys == s.futures.Keys
    && (forall id :: id in s.futures ==>
          s1.futures[id] ==
          if id in Registered(s, scope) && !Complete(s.futures[id]) then s.futures[id].(status := Cancelled)
          else s.futures[id])
    && s1.stack == s.stack && s1.clock == s.clock
  }

  /** What a reset means for the rest of a run: a Future of that scope whose Fiber does not have
  control keeps the state it had completed with, or stays cancelled, whatever happens afterwards. */
  lemma ResetIsForever(s: State, scope: string, actions: seq<Action>, id: nat)
    requires Inv(s) && id in s.futures && id in Registered(s, scope) && !OnStack(s, id)
    requires Possible(s, [Reset(scope)] + actions)
    ensures
      var end := End(s, [Reset(scope)] + actions);
      && id in end.futures
      && end.futures[id].status == if Complete(s.futures[id]) then s.futures[id].status else Cancelled
  {
    var run := [Reset(scope)] + actions;
    assert run[0] == Reset(scope) && run[1..] == actions;
    var s1 := Step(s, Reset(scope));
    StepKeepsInv(s, Reset(scope));
    assert s1.stack == s.stack;
    assert s1.futures[id] == CancelOne(s.futures[id]);
    TerminalIsForever(s1, actions, id);
  }

  /** A reset in progress: the scope is gone and all but `todo` have been cancelled. */
  ghost predicate Resetting(s: State, scope: string, todo: set<nat>, now: State) {
    && OneScopeEach(s) && todo <= Registered(s, scope)
    && scope !in now.table
    && (forall other :: other != scope ==> Registered(now, other) == Registered(s, other))
    && now.futures.Keys == s.futures.Keys && now.stack == s.stack && now.clock == s.clock
    && (forall id :: id in s.futures ==>
          now.futures[id] == if id in Registered(s, scope) - todo then CancelOne(s.futures[id]) else s.futures[id])
  }

  lemma ResetOne(s: State, scope: string, todo: set<nat>, id: nat, now: State, current: string)
    requires Resetting(s, scope, todo, now) && id in todo
    ensures id in now.futures
    ensures Complete(now.futures[id]) ==> Resetting(s, scope, todo - {id}, now)
    ensures Resetting(s, scope, todo - {id}, Step(now, Cancel(id, current)))
  {
    var next := Step(now, Cancel(id, current));
    forall other | other != scope ensures Registered(next, other) == Registered(s, other) {
      if other == current {
        assert id !in Registered(s, other);
        assert Registered(next, other) == Registered(now, other) - {id};
      }
    }
  }

  class Loop {
    var futures: map<nat, Future>
    var table: map<string, set<nat>>
    var stack: seq<Frame>
    var clock: int

    ghost function View(): State reads this { State(futures, table, stack, clock) }

    constructor ()
      ensures View() == START
    {
      futures, table, stack, clock := map[], map[], [], 0;
    }

    method Unregister(id: nat, scope: string)
      modifies `table
      ensures table == Unregistered(old(table), id, scope)
    {
      if scope in table {
        table := table[scope := table[scope] - {id}];
        if table[scope] == {} {
          table := table - {scope};
        }
      }
      assert table == Unregistered(old(table), id, scope);
    }

    method CancelFuture(id: nat, current: string)
      requires id in futures
      modifies `futures, `table
      ensures View() == Step(old(View()), Cancel(id, current))
    {
      if !Complete(futures[id]) {
        futures := futures[id := futures[id].(status := Cancelled)];
      }
      assert futures == old(futures)[id := CancelOne(old(futures)[id])];
      Unregister(id, current);
    }

    /** `reset($scope)` called by code running in `current`. Each cancellation also
    unregisters the future in the caller's scope, which does not hold it. */
    method ResetScope(scope: string, current: string)
      requires OneScopeEach(View())
      modifies `futures, `table
      ensures ResetExactly(old(View()), scope, View())
    {
      if scope !in table || table[scope] == {} {
        return;
      }
      var todo := table[scope];
      table := table - {scope};
      while todo != {}
        invariant Resetting(old(View()), scope, todo, View())
        decreases todo
      {
        var id :| id in todo;
        ResetOne(old(View()), scope, todo, id, View(), current);
        todo := todo - {id};
        hide Resetting;
        if !Complete(futures[id]) {
          CancelFuture(id, current);
        }
      }
    }

    method AdvanceFuture(id: nat, now: int)
      requires id in futures && now <= clock
      modifies `futures, `stack
      ensures View() == Step(old(View()), Advance(id, now))
    {
      var f := futures[id];
      if Complete(f) || f.resumeAt > now {
        return;
      }
      if f.status.Pending? || f.fiber.Suspended? {
        futures := futures[id := f.(status := Running, fiber := Active)];
        stack := stack + [Frame(id, now)];
      }
    }
  }
}
