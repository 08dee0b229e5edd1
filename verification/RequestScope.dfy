/** Request scopes: deferred cleanups, the leak detector's count of open scopes, and what a
cleanup that itself calls `RequestScope::finish()` does to both. */
module RequestScope {
  import opened Text

  /** A deferred callback, by what it does when it runs. It may finish the scope itself, and it
  may throw afterwards. Calling `defer` throws, since its scope is no longer active. */
  datatype Cleanup = Cleanup(id: nat, finishes: bool, throws: bool)

  // ----- what closing a scope amounts to -----

  lemma ReversedStep(before: seq<Cleanup>, front: seq<Cleanup>, last: Cleanup)
    ensures before + Reversed(front + [last]) == before + [last] + Reversed(front)
  {
    assert (front + [last])[..|front|] == front;
    assert before + ([last] + Reversed(front)) == before + [last] + Reversed(front);
  }

  lemma ReversedOfNone()
    ensures Reversed<Cleanup>([]) == []
  {
  }

  function Throwing(cleanups: seq<Cleanup>): nat {
    if cleanups == [] then 0
    else (if cleanups[|cleanups| - 1].throws then 1 else 0) + Throwing(cleanups[..|cleanups| - 1])
  }

  function Finishing(cleanups: seq<Cleanup>): nat {
    if cleanups == [] then 0
    else (if cleanups[|cleanups| - 1].finishes then 1 else 0) + Finishing(cleanups[..|cleanups| - 1])
  }

  lemma {:induction false} ReversedAt(cleanups: seq<Cleanup>, i: nat)
    requires i < |cleanups|
    ensures |Reversed(cleanups)| == |cleanups|
    ensures Reversed(cleanups)[|cleanups| - 1 - i] == cleanups[i]
  {
    var last := |cleanups| - 1;
    if last > 0 { ReversedAt(cleanups[..last], if i < last then i else 0); }
  }

  function Thrown(cleanup: Cleanup): nat { if cleanup.throws then 1 else 0 }

  /** What one closing leaves: the scope's failure count, the failures told to the detector and
  the number of `scopeClosed` calls. */
  datatype Closing = Closing(failures: nat, reported: nat, calls: nat)

  /** Closing a scope that already counts `failures`. A cleanup that finishes the scope closes
  it from inside, and the closing it interrupted then closes it once more. */
  function Unwind(cleanups: seq<Cleanup>, failures: nat): Closing {
    if cleanups == [] then
      Closing(failures, failures, 1)
    else
      var last := cleanups[|cleanups| - 1];
      var thrown := Thrown(last);
      if last.finishes then
        var inner := Unwind(cleanups[..|cleanups| - 1], failures);
        Closing(inner.failures + thrown, inner.reported + inner.failures + thrown, inner.calls + 1)
      else
        Unwind(cleanups[..|cleanups| - 1], failures + thrown)
  }

  /** However the closings nest, every failure is counted once and the detector is called once,
  plus once for each cleanup that finishes the scope. */
  lemma {:induction false} UnwindCounts(cleanups: seq<Cleanup>, failures: nat)
    ensures Unwind(cleanups, failures).failures == failures + Throwing(cleanups)
    ensures Unwind(cleanups, failures).calls == 1 + Finishing(cleanups)
    ensures Unwind(cleanups, failures).reported >= Unwind(cleanups, failures).failures
    ensures failures + Throwing(cleanups) == 0 ==> Unwind(cleanups, failures).reported == 0
  {
    if cleanups != [] {
      var last := cleanups[|cleanups| - 1];
      UnwindCounts(cleanups[..|cleanups| - 1], if last.throws && !last.finishes then failures + 1 else failures);
    }
  }

  /** Some failure is already counted when the first finishing cleanup has finished the scope. */
  predicate CountedTwice(cleanups: seq<Cleanup>, failures: nat) {
    cleanups != [] &&
    var last, rest := cleanups[|cleanups| - 1], cleanups[..|cleanups| - 1];
    if last.finishes then failures + Throwing(rest) > 0
    else CountedTwice(rest, if last.throws then failures + 1 else failures)
  }

  /** The detector's failure total is the scope's own exactly when no failure is counted twice. */
  lemma {:induction false} ReportsExactlyWhen(cleanups: seq<Cleanup>, failures: nat)
    ensures Unwind(cleanups, failures).reported == Unwind(cleanups, failures).failures <==>
            !CountedTwice(cleanups, failures)
  {
    if cleanups != [] {
      var last, rest := cleanups[|cleanups| - 1], cleanups[..|cleanups| - 1];
      if last.finishes {
        UnwindCounts(rest, failures);
      } else {
        ReportsExactlyWhen(rest, if last.throws then failures + 1 else failures);
      }
    }
  }

  /** `max(0, activeScopes - 1)`, done `times` times. */
  function Lowered(active: nat, times: nat): (r: nat)
    ensures r == if active >= times then active - times else 0
  {
    if times == 0 then active else Lowered(if active == 0 then 0 else active - 1, times - 1)
  }

  /** From an exact count, a closing that nothing interrupts leaves an exact count if and only
  if none of its cleanups finishes the scope, or it was the only open scope, where the clamp at
  zero hides it. */
  lemma CountStaysExactlyWhen(cleanups: seq<Cleanup>, active: nat)
    requires active >= 1
    ensures Lowered(active, Unwind(cleanups, 0).calls) == active - 1 <==> Finishing(cleanups) == 0 || active == 1
  {
    UnwindCounts(cleanups, 0);
  }

  // ----- the objects -----

  class LeakDetector {
    var activeScopes: nat
    var cleanupFailures: nat
    ghost var calls: nat            // of ScopeClosed

    constructor ()
      ensures activeScopes == 0 && cleanupFailures == 0 && calls == 0
    {
      activeScopes, cleanupFailures, calls := 0, 0, 0;
    }

    method ScopeOpened()
      modifies this
      ensures activeScopes == old(activeScopes) + 1
      ensures cleanupFailures == old(cleanupFailures) && calls == old(calls)
    {
      activeScopes := activeScopes + 1;
    }

    method ScopeClosed(failures: nat)
      modifies this
      ensures activeScopes == Lowered(old(activeScopes), 1)
      ensures cleanupFailures == old(cleanupFailures) + failures && calls == old(calls) + 1
    {
      activeScopes := if activeScopes > 1 then activeScopes - 1 else 0;
      cleanupFailures := cleanupFailures + failures;
      calls := calls + 1;
    }
  }

  datatype ScopeState = Active | InClosing | Closed

  /** A scope and the slot of the Fiber context that holds it. */
  class Scope {
    var cleanups: seq<Cleanup>
    var state: ScopeState
    var cleanupFailures: nat
    var installed: bool             // the Fiber context still names this scope
    ghost var ran: seq<Cleanup>
    const detector: LeakDetector

    ghost predicate Valid()
      reads this
    {
      && (state == Active ==> installed && ran == [] && cleanupFailures == 0)
      && (state == Closed ==> cleanups == [])
      && (state == InClosing ==> installed || cleanups == [])
    }

    /** `RequestScope::begin`, once the identifier and the Fiber context allowed it. */
    constructor (detector: LeakDetector)
      modifies detector
      ensures Valid() && state == Active && cleanups == [] && this.detector == detector
      ensures detector.activeScopes == old(detector.activeScopes) + 1
    {
      this.detector := detector;
      cleanups, state, cleanupFailures, installed, ran := [], Active, 0, true, [];
      new;
      detector.ScopeOpened();
    }

    /** Refused, with nothing changed, unless the scope is active. */
    method Defer(cleanup: Cleanup) returns (ok: bool)
      requires Valid()
      modifies this
      ensures Valid() && ok == (old(state) == Active)
      ensures cleanups == if ok then old(cleanups) + [cleanup] else old(cleanups)
      ensures state == old(state) && ran == old(ran) && installed == old(installed)
      ensures cleanupFailures == old(cleanupFailures)
    {
      ok := state == Active;
      if ok {
        cleanups := cleanups + [cleanup];
      }
    }

    /** Each cleanup runs exactly once, the last deferred first, however the closings nest. */
    method Close()
      requires Valid() && installed
      modifies this, detector
      ensures Valid() && state == Closed && cleanups == []
      ensures old(state) != Closed ==>
                ClosedFrom(old(cleanups), old(cleanupFailures), old(ran),
                           old(detector.activeScopes), old(detector.cleanupFailures), old(detector.calls))
      ensures old(state) == Closed ==> unchanged(this) && unchanged(detector)
      decreases |cleanups|, 1
    {
      if state == Closed {
        return;
      }
      hide Reversed, Lowered, Throwing, Finishing;
      ReversedOfNone();
      state := InClosing;
      ghost var first, start := cleanups, detector.calls;
      ghost var whole := Unwind(cleanups, cleanupFailures);
      while cleanups != []
        invariant state != Active && (state == Closed ==> cleanups == []) && (cleanups != [] ==> installed)
        invariant |cleanups| <= |first| && start <= detector.calls
        invariant ran + Reversed(cleanups) == old(ran) + Reversed(first)
        invariant Unwind(cleanups, cleanupFailures).failures == whole.failures
        invariant detector.calls + Unwind(cleanups, cleanupFailures).calls == start + whole.calls
        invariant detector.cleanupFailures + Unwind(cleanups, cleanupFailures).reported ==
                  old(detector.cleanupFailures) + whole.reported
        invariant detector.activeScopes == Lowered(old(detector.activeScopes), detector.calls - start)
        decreases |cleanups|
      {
        RunLast();
      }
      state := Closed;
      detector.ScopeClosed(cleanupFailures);
    }

    /** Pops and calls the last cleanup. What is done and what is left stay one closing. */
    method RunLast()
      requires Valid() && state == InClosing && installed && cleanups != []
      modifies this, detector
      ensures state != Active && (state == Closed ==> cleanups == []) && (cleanups != [] ==> installed)
      ensures |cleanups| < |old(cleanups)| && old(detector.calls) <= detector.calls
      ensures ran + Reversed(cleanups) == old(ran) + Reversed(old(cleanups))
      ensures
        var left, whole := Unwind(cleanups, cleanupFailures), old(Unwind(cleanups, cleanupFailures));
        && left.failures == whole.failures
        && detector.calls + left.calls == old(detector.calls) + whole.calls
        && detector.cleanupFailures + left.reported == old(detector.cleanupFailures) + whole.reported
      ensures detector.activeScopes == Lowered(old(detector.activeScopes), detector.calls - old(detector.calls))
      decreases |cleanups|, 0
    {
      hide Reversed;
      ReversedOfNone();
      var cleanup := cleanups[|cleanups| - 1];
      assert cleanups == cleanups[..|cleanups| - 1] + [cleanup];
      cleanups := cleanups[..|cleanups| - 1];
      ran := ran + [cleanup];
      ReversedStep(old(ran), cleanups, cleanup);
      if cleanup.finishes {
        Finish();
      }
      if cleanup.throws {
        cleanupFailures := cleanupFailures + 1;
      }
    }

    /** The state a closing leaves, from the values it started with. */
    ghost predicate ClosedFrom(
        deferred: seq<Cleanup>, failures: nat, before: seq<Cleanup>, active: nat, reported: nat, calls: nat)
      reads this, detector
    {
      var whole := Unwind(deferred, failures);
      && ran == before + Reversed(deferred)
      && cleanupFailures == whole.failures
      && detector.activeScopes == Lowered(active, whole.calls)
      && detector.cleanupFailures == reported + whole.reported
      && detector.calls == calls + whole.calls
    }

    /** `RequestScope::finish`: closes the scope the Fiber context names, if any, and drops it. */
    method Finish()
      requires Valid()
      modifies this, detector
      ensures Valid() && !installed
      ensures !old(installed) ==> unchanged(this) && unchanged(detector)
      ensures old(installed) ==> state == Closed && cleanups == []
      ensures old(installed) && old(state) != Closed ==>
                ClosedFrom(old(cleanups), old(cleanupFailures), old(ran),
                           old(detector.activeScopes), old(detector.cleanupFailures), old(detector.calls))
      decreases |cleanups|, 2
    {
      if !installed {
        return;
      }
      Close();
      installed := false;
    }
  }

  // ----- every Fiber's scope -----

  /** One activation of `close`: at the head of its loop, or inside a cleanup that may already
  have called `finish`. */
  datatype Frame = Looping | InCleanup(cleanup: Cleanup, finished: bool)

  /** A scope with the activations of `close` on it, innermost last. `given` holds every cleanup
  it accepted, and the last four fields what its closing has done so far. */
  datatype Account = Account(
    given: seq<Cleanup>, cleanups: seq<Cleanup>, frames: seq<Frame>,
    ran: seq<Cleanup>, failures: nat, reported: nat, calls: nat)

  /** `open` maps a Fiber to its scope, closing ones included; `done` lists the closed scopes. */
  datatype State = State(open: map<nat, Account>, done: seq<Account>, active: nat)

  /** A cleanup may suspend, so `Advance` takes a closing only one step further. */
  datatype Event =
    | Begin(fiber: nat, id: string)
    | Defer(fiber: nat, cleanup: Cleanup)
    | Finish(fiber: nat)
    | Advance(fiber: nat)

  function Start(): State { State(map[], [], 0) }

  function Last<T>(s: seq<T>): T
    requires s != []
  {
    s[|s| - 1]
  }

  function Front<T>(s: seq<T>): seq<T>
    requires s != []
  {
    s[..|s| - 1]
  }

  predicate EndsClosing(k: Account) { k.frames != [] && Last(k.frames).Looping? && k.cleanups == [] }

  function Advanced(k: Account): Account
    requires k.frames != []
  {
    match Last(k.frames)
    case Looping =>
      if k.cleanups == [] then
        k.(frames := Front(k.frames), reported := k.reported + k.failures, calls := k.calls + 1)
      else
        k.(cleanups := Front(k.cleanups), ran := k.ran + [Last(k.cleanups)],
           frames := Front(k.frames) + [InCleanup(Last(k.cleanups), false)])
    case InCleanup(cleanup, finished) =>
      if cleanup.finishes && !finished then
        k.(frames := Front(k.frames) + [InCleanup(cleanup, true)] + [Looping])
      else
        k.(failures := k.failures + Thrown(cleanup), frames := Front(k.frames) + [Looping])
  }

  function Step(s: State, e: Event): State {
    match e
    case Begin(fiber, id) =>
      if id == "" || fiber in s.open then s     // both throw
      else s.(open := s.open[fiber := Account([], [], [], [], 0, 0, 0)], active := s.active + 1)
    case Defer(fiber, cleanup) =>
      if fiber !in s.open || s.open[fiber].frames != [] then s      // no scope, or no longer active
      else
        var k := s.open[fiber];
        s.(open := s.open[fiber := k.(given := k.given + [cleanup], cleanups := k.cleanups + [cleanup])])
    case Finish(fiber) =>
      if fiber !in s.open || s.open[fiber].frames != [] then s
      else s.(open := s.open[fiber := s.open[fiber].(frames := [Looping])])
    case Advance(fiber) =>
      if fiber !in s.open || s.open[fiber].frames == [] then s
      else
        var k := Advanced(s.open[fiber]);
        var active := if EndsClosing(s.open[fiber]) then Lowered(s.active, 1) else s.active;
        if k.frames == [] then State(s.open - {fiber}, s.done + [k], active)
        else State(s.open[fiber := k], s.done, active)
  }

  function Run(s: State, events: seq<Event>): State
    decreases |events|
  {
    if events == [] then s else Run(Step(s, events[0]), events[1..])
  }

  // ----- what a closing still has to do -----

  /** The activations outside one that ends with `inner`: each returns from its cleanup, finds
  nothing left and closes once more. */
  function Outer(frames: seq<Frame>, inner: Closing): Closing
    decreases |frames|
  {
    if frames == [] || frames[|frames| - 1].Looping? then inner
    else
      var failures := inner.failures + Thrown(frames[|frames| - 1].cleanup);
      Outer(frames[..|frames| - 1], Closing(failures, inner.reported + failures, inner.calls + 1))
  }

  function Remaining(k: Account): Closing {
    if k.frames == [] then Closing(k.failures, 0, 0)
    else
      match Last(k.frames)
      case Looping => Outer(Front(k.frames), Unwind(k.cleanups, k.failures))
      case InCleanup(cleanup, finished) =>
        if cleanup.finishes && !finished then
          Outer(Front(k.frames) + [InCleanup(cleanup, true)], Unwind(k.cleanups, k.failures))
        else
          Outer(Front(k.frames), Unwind(k.cleanups, k.failures + Thrown(cleanup)))
  }

  lemma {:induction false} OuterShifts(frames: seq<Frame>, inner: Closing, reported: nat, calls: nat)
    ensures var a, b := Outer(frames, inner),
                        Outer(frames, inner.(reported := inner.reported + reported, calls := inner.calls + calls));
            b == a.(reported := a.reported + reported, calls := a.calls + calls)
    decreases |frames|
  {
    if frames != [] && !Last(frames).Looping? {
      var failures := inner.failures + Thrown(Last(frames).cleanup);
      OuterShifts(Front(frames), Closing(failures, inner.reported + failures, inner.calls + 1), reported, calls);
    }
  }

  /** What a scope has done and what it still has to do are together an uninterrupted closing,
  and the cleanups it ran are the last ones deferred, last first. */
  ghost predicate Sound(k: Account) {
    && k.ran + Reversed(k.cleanups) == Reversed(k.given)
    && (k.frames == [] ==> k.cleanups == k.given && k.failures == k.reported == k.calls == 0)
    && (forall i :: 0 <= i < |k.frames| - 1 ==> k.frames[i].InCleanup? && k.frames[i].finished)
    && (k.frames != [] ==> Meets(k))
  }

  ghost predicate Meets(k: Account) {
    var rest, whole := Remaining(k), Unwind(k.given, 0);
    && rest.failures == whole.failures
    && k.reported + rest.reported == whole.reported
    && k.calls + rest.calls == whole.calls
  }

  /** A closed scope: every cleanup ran once, last first, with the counts of one closing. */
  ghost predicate Settled(k: Account) {
    && k.cleanups == [] && k.ran == Reversed(k.given)
    && Closing(k.failures, k.reported, k.calls) == Unwind(k.given, 0)
  }

  lemma {:induction false} OuterStep(outside: seq<Frame>, cleanup: Cleanup, inner: Closing)
    ensures var failures := inner.failures + Thrown(cleanup);
            Outer(outside + [InCleanup(cleanup, true)], inner) ==
            Outer(outside, Closing(failures, inner.reported + failures, inner.calls + 1))
  {
    var frames := outside + [InCleanup(cleanup, true)];
    var failures := inner.failures + Thrown(cleanup);
    assert frames[|frames| - 1] == InCleanup(cleanup, true) && frames[..|frames| - 1] == outside;
    assert Outer(frames, inner) ==
      Outer(frames[..|frames| - 1], Closing(failures, inner.reported + failures, inner.calls + 1));
  }

  lemma PopMeets(k: Account)
    requires k.frames != [] && Last(k.frames).Looping? && k.cleanups != [] && Meets(k)
    ensures Meets(Advanced(k))
  {
    hide Outer;
    var k1, cleanup := Advanced(k), Last(k.cleanups);
    assert Front(k1.frames) == Front(k.frames) && Last(k1.frames) == InCleanup(cleanup, false);
    OuterStep(Front(k.frames), cleanup, Unwind(k1.cleanups, k.failures));
  }

  lemma ReturnMeets(k: Account)
    requires k.frames != [] && Last(k.frames).InCleanup? && Meets(k)
    ensures Meets(Advanced(k))
  {
    hide Outer, Unwind;
    var k1 := Advanced(k);
    assert Last(k1.frames) == Looping;
    var cleanup := Last(k.frames).cleanup;
    if cleanup.finishes && !Last(k.frames).finished {
      assert Front(k1.frames) == Front(k.frames) + [InCleanup(cleanup, true)];
    } else {
      assert Front(k1.frames) == Front(k.frames);
    }
  }

  lemma EndMeets(k: Account)
    requires EndsClosing(k) && Meets(k)
    requires forall i :: 0 <= i < |k.frames| - 1 ==> k.frames[i].InCleanup? && k.frames[i].finished
    ensures Meets(Advanced(k))
  {
    var outside := Front(k.frames);
    if outside != [] {
      assert Last(outside) == k.frames[|k.frames| - 2];
      var failures := k.failures + Thrown(Last(outside).cleanup);
      OuterShifts(Front(outside), Closing(failures, failures, 1), k.failures, 1);
    }
  }

  lemma AdvancedIsSound(k: Account)
    requires Sound(k) && k.frames != []
    ensures Advanced(k).frames != [] ==> Sound(Advanced(k))
    ensures Advanced(k).frames == [] ==> Settled(Advanced(k))
  {
    var k1 := Advanced(k);
    if EndsClosing(k) {
      EndMeets(k);
    } else if Last(k.frames).Looping? {
      PopMeets(k);
      assert k1.ran + Reversed(k1.cleanups) == k.ran + ([Last(k.cleanups)] + Reversed(k1.cleanups));
    } else {
      ReturnMeets(k);
    }
    hide Meets, Reversed;
    forall i | 0 <= i < |k1.frames| - 1 ensures k1.frames[i].InCleanup? && k1.frames[i].finished {
      assert i < |k.frames| - 1 ==> k1.frames[i] == k.frames[i];
    }
  }

  // ----- every run -----

  /** Every closing, at whatever point the others interrupt it, is one of `Unwind`, and the
  detector never counts more scopes than are open. */
  ghost predicate Inv(s: State) {
    && s.active <= |s.open.Keys|
    && (forall fiber :: fiber in s.open ==> Sound(s.open[fiber]))
    && (forall i :: 0 <= i < |s.done| ==> Settled(s.done[i]))
  }

  lemma {:induction false} LeavesExactlyWhen(k: Account)
    requires k.frames != []
    ensures Advanced(k).frames == [] <==> EndsClosing(k) && |k.frames| == 1
  {
  }

  lemma {:induction false} OpenCount(s: State, e: Event)
    ensures |Step(s, e).open.Keys| ==
            if e.Begin? && e.id != "" && e.fiber !in s.open then |s.open.Keys| + 1
            else if e.Advance? && e.fiber in s.open && EndsClosing(s.open[e.fiber]) && |s.open[e.fiber].frames| == 1
            then |s.open.Keys| - 1
            else |s.open.Keys|
  {
    hide Advanced, Lowered, EndsClosing;
    var t := Step(s, e);
    if e.fiber in s.open && s.open[e.fiber].frames != [] { LeavesExactlyWhen(s.open[e.fiber]); }
    if e.fiber in t.open {
      assert t.open.Keys == s.open.Keys + {e.fiber};
    } else {
      assert t.open.Keys == s.open.Keys - {e.fiber};
    }
  }

  lemma StepKeepsInv(s: State, e: Event)
    requires Inv(s)
    ensures Inv(Step(s, e))
  {
    OpenCount(s, e);
    hide Sound, Settled, Advanced;
    var t := Step(s, e);
    if e.Advance? && e.fiber in s.open && s.open[e.fiber].frames != [] {
      AdvancedIsSound(s.open[e.fiber]);
    }
    forall fiber | fiber in t.open ensures Sound(t.open[fiber]) {
      if fiber == e.fiber { TouchedIsSound(s, e); } else { assert t.open[fiber] == s.open[fiber]; }
    }
  }

  lemma {:induction false} NewIsSound()
    ensures Sound(Account([], [], [], [], 0, 0, 0))
  {
  }

  lemma {:induction false} DeferIsSound(k: Account, cleanup: Cleanup)
    requires Sound(k) && k.frames == []
    ensures Sound(k.(given := k.given + [cleanup], cleanups := k.cleanups + [cleanup]))
  {
    RanNothing(k);
  }

  lemma {:induction false} FinishIsSound(k: Account)
    requires Sound(k) && k.frames == []
    ensures Sound(k.(frames := [Looping]))
  {
    assert Front([Looping]) == [];
  }

  lemma {:induction false} TouchedIsSound(s: State, e: Event)
    requires Inv(s)
    ensures e.fiber in Step(s, e).open ==> Sound(Step(s, e).open[e.fiber])
  {
    hide Sound, Advanced, Settled, Lowered, EndsClosing;
    if e.fiber !in s.open {
      NewIsSound();
    } else {
      var k := s.open[e.fiber];
      assert Sound(k);
      if k.frames != [] {
        AdvancedIsSound(k);
      } else {
        FinishIsSound(k);
        if e.Defer? { DeferIsSound(k, e.cleanup); }
      }
    }
  }

  lemma {:induction false} RanNothing(k: Account)
    requires Sound(k) && k.frames == []
    ensures k.ran == []
  {
    assert |k.ran + Reversed(k.cleanups)| == |k.ran| + |Reversed(k.cleanups)|;
  }

  /** The end of a closing that another one is waiting for. */
  predicate EndsNested(s: State, e: Event) {
    e.Advance? && e.fiber in s.open && EndsClosing(s.open[e.fiber]) && |s.open[e.fiber].frames| > 1
  }

  /** From an exact count, a step leaves an exact count if and only if it is not the end of a
  closing that a cleanup started itself. */
  lemma CountBreaksExactlyWhen(s: State, e: Event)
    requires s.active == |s.open.Keys|
    ensures Step(s, e).active == |Step(s, e).open.Keys| <==> !EndsNested(s, e)
  {
    OpenCount(s, e);
    if e.Advance? && e.fiber in s.open { assert |s.open.Keys| > 0; }
  }

  /** No cleanup finishes the scope it belongs to. */
  predicate Plain(s: State) {
    forall fiber :: fiber in s.open ==> PlainScope(s.open[fiber])
  }

  predicate PlainScope(k: Account) {
    && Finishing(k.cleanups) == 0
    && |k.frames| <= 1
    && (k.frames != [] && k.frames[0].InCleanup? ==> !k.frames[0].cleanup.finishes)
  }

  lemma StepStaysPlain(s: State, e: Event)
    requires Plain(s) && (e.Defer? ==> !e.cleanup.finishes)
    ensures Plain(Step(s, e)) && !EndsNested(s, e)
  {
    var t := Step(s, e);
    if e.fiber in s.open {
      var k := s.open[e.fiber];
      assert PlainScope(k);
      if e.Defer? {
        var longer := k.cleanups + [e.cleanup];
        assert longer[..|longer| - 1] == k.cleanups;
      }
    }
    forall fiber | fiber in t.open ensures PlainScope(t.open[fiber]) {
      if fiber != e.fiber { assert t.open[fiber] == s.open[fiber]; }
    }
  }

  /** Every run of scopes in any number of Fibers, cleanups that suspend included: each scope
  runs its cleanups once each, last first, with the counts of one closing, and the detector's
  count is never above the open scopes. It is exact throughout, and zero at the end, while no
  cleanup finishes its own scope. */
  lemma {:induction false} EveryRunIsClean(s: State, events: seq<Event>)
    requires Inv(s)
    ensures Inv(Run(s, events))
    ensures s.done <= Run(s, events).done
    ensures Run(s, events).open == map[] ==> Run(s, events).active == 0
    ensures s.active == |s.open.Keys| && Plain(s) && (forall e :: e in events && e.Defer? ==> !e.cleanup.finishes) ==>
              Run(s, events).active == |Run(s, events).open.Keys|
    decreases |events|
  {
    hide Inv, Plain;
    if events != [] {
      var e := events[0];
      assert s.done <= Step(s, e).done;
      hide Step;
      StepKeepsInv(s, e);
      CountBreaks(s, e);
      if Plain(s) && !(e.Defer? && e.cleanup.finishes) { StepStaysPlain(s, e); }
      assert forall x :: x in events[1..] ==> x in events;
      EveryRunIsClean(Step(s, e), events[1..]);
    } else {
      ActiveIsBounded(s);
    }
  }

  lemma CountBreaks(s: State, e: Event)
    ensures s.active == |s.open.Keys| && !EndsNested(s, e) ==> Step(s, e).active == |Step(s, e).open.Keys|
  {
    if s.active == |s.open.Keys| { CountBreaksExactlyWhen(s, e); }
  }

  lemma ActiveIsBounded(s: State)
    requires Inv(s)
    ensures s.open == map[] ==> s.active == 0
  {
  }

  lemma StartIsClean()
    ensures Inv(Start()) && Plain(Start()) && Start().active == |Start().open.Keys|
  {
  }

  function Steps(frame: Frame): nat {
    match frame case Looping => 1 case InCleanup(_, finished) => if finished then 2 else 4
  }

  function Weight(frames: seq<Frame>): nat {
    if frames == [] then 0
    else Steps(Last(frames)) + Weight(Front(frames))
  }

  function Work(k: Account): nat { 4 * |k.cleanups| + Weight(k.frames) }

  lemma AdvancedIsLess(k: Account)
    requires k.frames != []
    ensures Work(Advanced(k)) < Work(k)
  {
    var outside := Front(k.frames);
    match Last(k.frames)
    case Looping =>
      if k.cleanups != [] { WeightStep(outside, InCleanup(Last(k.cleanups), false)); }
    case InCleanup(cleanup, finished) =>
      WeightStep(outside, Looping);
      WeightStep(outside, InCleanup(cleanup, true));
      WeightStep(outside + [InCleanup(cleanup, true)], Looping);
  }

  lemma WeightStep(outside: seq<Frame>, frame: Frame)
    ensures Weight(outside + [frame]) == Weight(outside) + Steps(frame)
  {
    assert Front(outside + [frame]) == outside && Last(outside + [frame]) == frame;
  }

  function Defers(fiber: nat, cleanups: seq<Cleanup>): seq<Event> {
    seq(|cleanups|, i requires 0 <= i < |cleanups| => Defer(fiber, cleanups[i]))
  }

  /** Deferring keeps the order: what is deferred last is behind everything before it. */
  lemma {:induction false} DefersKeepOrder(s: State, fiber: nat, cleanups: seq<Cleanup>)
    requires fiber in s.open && s.open[fiber].frames == []
    ensures
      var t, k := Run(s, Defers(fiber, cleanups)), s.open[fiber];
      && fiber in t.open && t.active == s.active && t.done == s.done
      && t.open[fiber] == k.(given := k.given + cleanups, cleanups := k.cleanups + cleanups)
    decreases |cleanups|
  {
    if cleanups == [] {
      assert s.open[fiber].given + [] == s.open[fiber].given && s.open[fiber].cleanups + [] == s.open[fiber].cleanups;
    } else {
      var k := s.open[fiber];
      assert Defers(fiber, cleanups)[0] == Defer(fiber, cleanups[0]);
      assert Defers(fiber, cleanups)[1..] == Defers(fiber, cleanups[1..]);
      DefersKeepOrder(Step(s, Defer(fiber, cleanups[0])), fiber, cleanups[1..]);
      assert cleanups == [cleanups[0]] + cleanups[1..];
      Associate(k.given, [cleanups[0]], cleanups[1..]);
      Associate(k.cleanups, [cleanups[0]], cleanups[1..]);
    }
  }

  /** A new scope opens where there is none, holds what is deferred to it, and starts to close
  when it is finished. */
  lemma ScopeOpensAndFinishes(s: State, fiber: nat, id: string, cleanups: seq<Cleanup>)
    requires fiber !in s.open && id != ""
    ensures
      var begun := Step(s, Begin(fiber, id));
      var filled := Run(begun, Defers(fiber, cleanups));
      var closing := Step(filled, Finish(fiber));
      && filled.active == s.active + 1
      && fiber in closing.open && closing.open[fiber].given == closing.open[fiber].cleanups == cleanups
      && closing.open[fiber].frames == [Looping] && closing.open[fiber].ran == []
  {
    DefersKeepOrder(Step(s, Begin(fiber, id)), fiber, cleanups);
    assert [] + cleanups == cleanups;
  }

  /** Left alone, a closing comes to its end, however its cleanups nest. */
  lemma {:induction false} ClosingEnds(k: Account) returns (steps: nat)
    requires k.frames != []
    ensures Settles(k, steps)
    decreases Work(k)
  {
    AdvancedIsLess(k);
    if Advanced(k).frames == [] {
      steps := 1;
      assert Settles(Advanced(k), 0);
    } else {
      var more := ClosingEnds(Advanced(k));
      steps := more + 1;
    }
  }

  predicate Settles(k: Account, steps: nat)
    decreases steps
  {
    if steps == 0 then k.frames == [] else k.frames != [] && Settles(Advanced(k), steps - 1)
  }
}
