/** The HTTP suspend/resume dispatcher.

Request Fibers share one set of process globals. Every advance of a dispatch restores
its environment, runs its Fiber, captures the environment and clears it again. A Fiber is
an arbitrary function of everything it has seen so far, so a script is any behaviour
between suspensions. */
module Dispatcher {
  import opened Text
  import opened ResponseCodec

  // The shared environment

  /** The value of a superglobal. A script may overwrite one with something else than an array. */
  datatype Slot = Array(entries: map<string, string>) | Scalar(text: string)

  datatype Globals = Globals(
    get: Slot, post: Slot, cookie: Slot, files: Slot, request: Slot, server: Slot, session: Slot)

  datatype Env = Env(globals: Globals, headers: seq<string>, status: int)

  const EMPTY: Slot := Array(map[])
  const CLEAR_GLOBALS: Globals := Globals(EMPTY, EMPTY, EMPTY, EMPTY, EMPTY, EMPTY, EMPTY)
  const CLEAR_ENV: Env := Env(CLEAR_GLOBALS, [], 200)

  /** `is_array($value) ? $value : []` */
  function ArrayOrEmpty(slot: Slot): Slot { if slot.Array? then slot else EMPTY }

  function ArraysOnly(g: Globals): Globals {
    Globals(ArrayOrEmpty(g.get), ArrayOrEmpty(g.post), ArrayOrEmpty(g.cookie), ArrayOrEmpty(g.files),
            ArrayOrEmpty(g.request), ArrayOrEmpty(g.server), ArrayOrEmpty(g.session))
  }

  /** What a capture keeps, and what a restore of it brings back. */
  function Captured(e: Env): Env { e.(globals := e.globals.(session := ArrayOrEmpty(e.globals.session))) }
  function Restored(e: Env): Env { e.(globals := ArraysOnly(e.globals)) }

  predicate AllArrays(g: Globals) {
    && g.get.Array? && g.post.Array? && g.cookie.Array? && g.files.Array?
    && g.request.Array? && g.server.Array? && g.session.Array?
  }

  /** One superglobal after a suspension: itself if it held an array, and empty otherwise. */
  predicate SlotComesBack(before: Slot, after: Slot) {
    after == if before.Array? then before else Array(map[])
  }

  /** A request finds its environment unchanged after a suspension exactly when every
  superglobal still held an array; one that did not comes back empty, and nothing else changes. */
  lemma RestoreIsExact(e: Env)
    ensures Restored(Captured(e)) == e <==> AllArrays(e.globals)
    ensures
      var g, h := e.globals, Restored(Captured(e)).globals;
      && SlotComesBack(g.get, h.get) && SlotComesBack(g.post, h.post) && SlotComesBack(g.cookie, h.cookie)
      && SlotComesBack(g.files, h.files) && SlotComesBack(g.request, h.request)
      && SlotComesBack(g.server, h.server) && SlotComesBack(g.session, h.session)
    ensures Restored(Captured(e)).headers == e.headers && Restored(Captured(e)).status == e.status
  {
  }

  // Fibers

  datatype Signal = Start | Resume(value: string) | Interrupt

  /** What a Fiber finds when it gets control. */
  datatype Visit = Visit(env: Env, signal: Signal)

  datatype End = Suspends(operation: string) | Returns(serialized: bytes) | Throws

  /** What one slice of a Fiber leaves behind: the environment, the stack of output
  buffers above the dispatcher's own level, and how it stopped. */
  datatype Turn = Turn(env: Env, buffers: seq<bytes>, end: End)

  type Script = seq<Visit> -> Turn

  /** The environment behind a slice. A Fiber that returns has passed the `finally` block of
  `executeHttp`, which empties every superglobal but leaves header bag and status. */
  function Left(turn: Turn): Env {
    if turn.end.Returns? then turn.env.(globals := CLEAR_GLOBALS) else turn.env
  }

  datatype Pending = Pending(script: Script, visits: seq<Visit>, suspended: bool, saved: Option<Env>, output: bytes)

  datatype State = State(dispatches: map<string, Pending>, env: Env, completed: nat)

  datatype Reply =
    | Suspended(operation: string)
    | Completed(payload: bytes)
    | Escaped                      // an exception left the dispatcher after the Fiber ended
    | Rejected                     // an exception before anything changed
    | Dropped                      // cancel removed a dispatch whose Fiber had ended
    | Ignored                      // cancel of an unknown dispatch

  /** A reply, together with what the Fiber saw if it ran. */
  datatype Event = Event(reply: Reply, seen: Option<Visit>)

  datatype Call =
    | Begin(id: string, script: Script)
    | ResumeCall(id: string, result: Option<string>)   // None: not valid JSON
    | Cancel(id: string)

  function Concat(buffers: seq<bytes>): bytes {
    if buffers == [] then [] else buffers[0] + Concat(buffers[1..])
  }

  const MAGIC: bytes := [0x89, 0x50, 0x41, 0x4d, 0x01]

  const INTERNAL_ERROR: bytes := Layout(Response(
    500,
    [Header(CONTENT_TYPE, [Ascii("application/json; charset=utf-8")])],
    Ascii("{\"error\":\"Internal Server Error\",\"message\":\"The request dispatch failed.\"}"),
    []))

  function Entered(s: State, p: Pending): Env {
    if p.saved.None? then s.env else Restored(p.saved.value)
  }

  function Finish(s: State, id: string, payload: bytes, seen: Visit): (State, Event) {
    (State(s.dispatches - {id}, CLEAR_ENV, s.completed + 1), Event(Completed(MAGIC + payload), Some(seen)))
  }

  function Advance(s: State, id: string, signal: Signal): (State, Event)
    requires id in s.dispatches
  {
    var p := s.dispatches[id];
    var seen := Visit(Entered(s, p), signal);
    var visits := p.visits + [seen];
    var turn := p.script(visits);
    var output := p.output + Concat(turn.buffers);
    match turn.end
    case Suspends(operation) =>
      var waiting := Pending(p.script, visits, true, Some(Captured(turn.env)), output);
      (State(s.dispatches[id := waiting], CLEAR_ENV, s.completed), Event(Suspended(operation), Some(seen)))
    case Throws => Finish(s, id, INTERNAL_ERROR, seen)
    case Returns(serialized) =>
      match Merge(serialized, output)
      case Some(payload) => Finish(s, id, payload, seen)
      case None =>
        (State(s.dispatches[id := Pending(p.script, visits, false, p.saved, output)], Left(turn), s.completed),
         Event(Escaped, Some(seen)))
  }

  function Fresh(script: Script): Pending { Pending(script, [], false, None, []) }

  function Step(s: State, call: Call): (State, Event) {
    match call
    case Begin(id, script) =>
      if id == "" || id in s.dispatches then (s, Event(Rejected, None))
      else Advance(s.(dispatches := s.dispatches[id := Fresh(script)]), id, Start)
    case ResumeCall(id, result) =>
      if id !in s.dispatches || !s.dispatches[id].suspended || result.None? then (s, Event(Rejected, None))
      else Advance(s, id, Resume(result.value))
    case Cancel(id) =>
      if id !in s.dispatches then (s, Event(Ignored, None))
      else if s.dispatches[id].suspended then Advance(s, id, Interrupt)
      else (State(s.dispatches - {id}, CLEAR_ENV, s.completed + 1), Event(Dropped, None))
  }

  /** The native entry points of begin and resume first reset header bag and status. */
  function Entry(s: State, call: Call): State {
    if call.Cancel? then s else s.(env := s.env.(headers := [], status := 200))
  }

  /** A call as the native server makes it. */
  function Serve(s: State, call: Call): (State, Event) { Step(Entry(s, call), call) }

  function Run(s: State, calls: seq<Call>): (State, seq<Event>)
    decreases calls
  {
    if calls == [] then (s, [])
    else
      var (s1, event) := Serve(s, calls[0]);
      var (s2, events) := Run(s1, calls[1..]);
      (s2, [event] + events)
  }

  const START: State := State(map[], CLEAR_ENV, 0)

  predicate Escapes(events: seq<Event>) { exists i :: 0 <= i < |events| && events[i].reply.Escaped? }

  // Non-interference

  function Project(calls: seq<Call>, id: string): seq<Call> {
    if calls == [] then []
    else (if calls[0].id == id then [calls[0]] else []) + Project(calls[1..], id)
  }

  function ProjectEvents(calls: seq<Call>, events: seq<Event>, id: string): seq<Event>
    requires |calls| == |events|
  {
    if calls == [] then []
    else (if calls[0].id == id then [events[0]] else []) + ProjectEvents(calls[1..], events[1..], id)
  }

  ghost predicate SameEntry(s: State, t: State, id: string) {
    && (id in s.dispatches <==> id in t.dispatches)
    && (id in s.dispatches ==> s.dispatches[id] == t.dispatches[id])
  }

  /** The superglobals are clear, and what is suspended has its environment saved. */
  ghost predicate Calm(s: State) {
    && s.env.globals == CLEAR_GLOBALS
    && forall id :: id in s.dispatches && s.dispatches[id].suspended ==> s.dispatches[id].saved.Some?
  }

  lemma AdvanceIsLocal(s: State, id: string, signal: Signal)
    requires id in s.dispatches
    ensures var (s1, event) := Advance(s, id, signal);
      && (event.reply.Suspended? || event.reply.Completed? || event.reply.Escaped?)
      && s1.env.globals == CLEAR_GLOBALS
      && (!event.reply.Escaped? ==> s1.env == CLEAR_ENV)
      && (id in s1.dispatches && s1.dispatches[id].suspended ==> s1.dispatches[id].saved.Some?)
      && forall other :: other != id ==> SameEntry(s, s1, other)
  {
    hide Merge, Concat;
  }

  /** A call touches no other request and leaves the superglobals clear. Header bag and status
  are clear too, unless the call escaped or was a cancel of nothing. */
  lemma ServeIsLocal(s: State, call: Call)
    requires Calm(s)
    ensures Calm(Serve(s, call).0)
    ensures forall id :: id != call.id ==> SameEntry(s, Serve(s, call).0, id)
    ensures !Serve(s, call).1.reply.Escaped? ==>
              Serve(s, call).0.env == if Serve(s, call).1.reply.Ignored? then s.env else CLEAR_ENV
  {
    hide Advance;
    var s0, s1 := Entry(s, call), Serve(s, call).0;
    match call {
      case Begin(id, script) =>
        AdvanceIsLocal(s0.(dispatches := s0.dispatches[id := Fresh(script)]), id, Start);
      case ResumeCall(id, result) =>
        if id in s.dispatches && result.Some? { AdvanceIsLocal(s0, id, Resume(result.value)); }
      case Cancel(id) =>
        if id in s.dispatches { AdvanceIsLocal(s0, id, Interrupt); }
    }
    forall other | other != call.id ensures SameEntry(s, s1, other) {
      var from := if call.Begin? then s0.(dispatches := s0.dispatches[call.id := Fresh(call.script)]) else s0;
      assert SameEntry(s, from, other) && SameEntry(from, s1, other);
    }
    assert forall other :: other in s1.dispatches && other != call.id ==> SameEntry(s, s1, other);
  }

  lemma AdvanceDependsOnOwnEntry(s: State, t: State, id: string, signal: Signal)
    requires id in s.dispatches && SameEntry(s, t, id)
    requires s.env == t.env || s.dispatches[id].saved.Some?
    ensures Advance(s, id, signal).1 == Advance(t, id, signal).1
    ensures SameEntry(Advance(s, id, signal).0, Advance(t, id, signal).0, id)
  {
    hide Merge, Concat;
  }

  lemma ServeDependsOnOwnEntry(s: State, t: State, call: Call)
    requires Calm(s) && Calm(t) && SameEntry(s, t, call.id)
    ensures Serve(s, call).1 == Serve(t, call).1
    ensures SameEntry(Serve(s, call).0, Serve(t, call).0, call.id)
  {
    hide Advance;
    var s0, t0 := Entry(s, call), Entry(t, call);
    match call
    case Begin(id, script) =>
      if id != "" && id !in s.dispatches {
        AdvanceDependsOnOwnEntry(s0.(dispatches := s0.dispatches[id := Fresh(script)]),
                                 t0.(dispatches := t0.dispatches[id := Fresh(script)]), id, Start);
      }
    case ResumeCall(id, result) =>
      if id in s.dispatches && result.Some? {
        AdvanceDependsOnOwnEntry(s0, t0, id, Resume(result.value));
      }
    case Cancel(id) =>
      if id in s.dispatches && s.dispatches[id].suspended {
        AdvanceDependsOnOwnEntry(s0, t0, id, Interrupt);
      }
  }

  lemma {:induction false} RunLength(s: State, calls: seq<Call>)
    ensures |Run(s, calls).1| == |calls|
    decreases calls
  {
    if calls != [] { RunLength(Serve(s, calls[0]).0, calls[1..]); }
  }

  lemma {:induction false} InterleavingIsSolo(s: State, solo: State, calls: seq<Call>, id: string)
    requires Calm(s) && Calm(solo) && SameEntry(s, solo, id)
    ensures |Run(s, calls).1| == |calls|
    ensures Run(solo, Project(calls, id)).1 == ProjectEvents(calls, Run(s, calls).1, id)
    ensures SameEntry(Run(s, calls).0, Run(solo, Project(calls, id)).0, id)
    ensures Calm(Run(s, calls).0)
    decreases calls
  {
    hide Serve, Calm;
    RunLength(s, calls);
    if calls != [] {
      var call := calls[0];
      var (s1, event) := Serve(s, call);
      var events := Run(s, calls).1;
      assert events[0] == event && events[1..] == Run(s1, calls[1..]).1;
      ServeIsLocal(s, call);
      if call.id == id {
        ServeIsLocal(solo, call);
        ServeDependsOnOwnEntry(s, solo, call);
        assert Project(calls, id)[0] == call && Project(calls, id)[1..] == Project(calls[1..], id);
        InterleavingIsSolo(s1, Serve(solo, call).0, calls[1..], id);
      } else {
        assert SameEntry(s, s1, id);
        assert Project(calls, id) == Project(calls[1..], id);
        InterleavingIsSolo(s1, solo, calls[1..], id);
      }
    }
  }

  /** Non-interference: whatever other requests do in between, exceptions that leave the
  dispatcher included, a request sees the same environments and gets the same replies as if
  it were alone in the process, and the superglobals are clear after every run. */
  lemma NonInterference(calls: seq<Call>, id: string)
    ensures |Run(START, calls).1| == |calls|
    ensures Run(START, Project(calls, id)).1 == ProjectEvents(calls, Run(START, calls).1, id)
    ensures SameEntry(Run(START, calls).0, Run(START, Project(calls, id)).0, id)
    ensures Run(START, calls).0.env.globals == CLEAR_GLOBALS
  {
    InterleavingIsSolo(START, START, calls, id);
  }

  /** Until an exception escapes, header bag and status are clear after every call too. */
  lemma {:induction false} EnvironmentIsClear(s: State, calls: seq<Call>)
    requires Calm(s) && s.env == CLEAR_ENV && !Escapes(Run(s, calls).1)
    ensures Run(s, calls).0.env == CLEAR_ENV
    decreases calls
  {
    hide Serve, Calm;
    if calls != [] {
      var (s1, event) := Serve(s, calls[0]);
      var events := Run(s, calls).1;
      assert events[0] == event;
      assert forall i :: 0 <= i < |Run(s1, calls[1..]).1| ==> Run(s1, calls[1..]).1[i] == events[i + 1];
      ServeIsLocal(s, calls[0]);
      EnvironmentIsClear(s1, calls[1..]);
    }
  }

  // Escapes

  function TurnOf(s: State, id: string, signal: Signal): Turn
    requires id in s.dispatches
  {
    var p := s.dispatches[id];
    p.script(p.visits + [Visit(Entered(s, p), signal)])
  }

  /** For a Fiber that returns an encoded response, an advance escapes exactly when the
  captured output would add the 65536th header. */
  lemma EscapesExactlyWhen(s: State, id: string, signal: Signal, r: Response)
    requires id in s.dispatches && InRange(r)
    requires TurnOf(s, id, signal).end == Returns(Layout(r))
    ensures Advance(s, id, signal).1.reply.Escaped? <==>
      && Fillable(r, s.dispatches[id].output + Concat(TurnOf(s, id, signal).buffers))
      && |r.headers| == LIMIT16 - 1
      && !HasHeader(r.headers, CONTENT_TYPE)
  {
    hide Merge, Concat, Layout;
    MergeMeaning(r, s.dispatches[id].output + Concat(TurnOf(s, id, signal).buffers));
  }

  /** A script whose every response has a content type or room for one. */
  ghost predicate Roomy(script: Script) {
    forall visits :: script(visits).end.Returns? ==> HasRoom(script(visits).end.serialized)
  }

  predicate CanTakeContentType(r: Response) {
    |r.headers| < LIMIT16 - 1 || HasHeader(r.headers, CONTENT_TYPE)
  }

  ghost predicate HasRoom(serialized: bytes) {
    exists r :: InRange(r) && serialized == Layout(r) && CanTakeContentType(r)
  }

  ghost predicate AllRoomy(s: State) {
    forall id :: id in s.dispatches ==> Roomy(s.dispatches[id].script)
  }

  lemma MergesInto(serialized: bytes, output: bytes)
    requires HasRoom(serialized)
    ensures Merge(serialized, output).Some?
  {
    var r :| InRange(r) && serialized == Layout(r) && CanTakeContentType(r);
    hide Merge, Layout;
    MergeMeaning(r, output);
  }

  lemma RoomyStepStays(s: State, call: Call)
    requires AllRoomy(s) && (call.Begin? ==> Roomy(call.script))
    ensures AllRoomy(Serve(s, call).0) && !Serve(s, call).1.reply.Escaped?
  {
    hide Merge, Concat, HasRoom;
    forall serialized, output | HasRoom(serialized) ensures Merge(serialized, output).Some? {
      MergesInto(serialized, output);
    }
  }

  /** Over every run of scripts that leave room for a content type no exception escapes. */
  lemma {:induction false} RoomyScriptsNeverEscape(s: State, calls: seq<Call>)
    requires AllRoomy(s) && forall i :: 0 <= i < |calls| && calls[i].Begin? ==> Roomy(calls[i].script)
    ensures AllRoomy(Run(s, calls).0) && !Escapes(Run(s, calls).1)
    decreases calls
  {
    hide Serve, AllRoomy, Roomy;
    if calls != [] {
      RoomyStepStays(s, calls[0]);
      RoomyScriptsNeverEscape(Serve(s, calls[0]).0, calls[1..]);
    }
  }

  /** After an escape, in whatever call, the superglobals are clear, but the entry stays and
  neither begins nor resumes until it is cancelled. Header bag and status stay as the request
  left them; the next request through a native entry point does not see them, while one begun
  inside PHP does. */
  lemma EscapeLeaves(s: State, call: Call)
    requires Calm(s) && Serve(s, call).1.reply.Escaped?
    ensures
      var s1 := Serve(s, call).0;
      && call.id in s1.dispatches && !s1.dispatches[call.id].suspended
      && s1.env == LeftBy(s1.dispatches[call.id]) && s1.env.globals == CLEAR_GLOBALS
      && s1.dispatches - {call.id} == s.dispatches - {call.id}
      && (forall script :: Serve(s1, Begin(call.id, script)).1.reply.Rejected?)
      && (forall result :: Serve(s1, ResumeCall(call.id, result)).1.reply.Rejected?)
      && Serve(s1, Cancel(call.id)) ==
         (State(s.dispatches - {call.id}, CLEAR_ENV, s.completed + 1), Event(Dropped, None))
    ensures
      var s1 := Serve(s, call).0;
      forall next, script | next != "" && next !in s1.dispatches ::
        && Serve(s1, Begin(next, script)).1.seen == Some(Visit(CLEAR_ENV, Start))
        && Step(s1, Begin(next, script)).1.seen == Some(Visit(s1.env, Start))
  {
    hide Merge, Concat;
    var s1 := Serve(s, call).0;
    assert s1.env.globals == CLEAR_GLOBALS;
    forall next, script | next != "" && next !in s1.dispatches
      ensures
        && Serve(s1, Begin(next, script)).1.seen == Some(Visit(CLEAR_ENV, Start))
        && Step(s1, Begin(next, script)).1.seen == Some(Visit(s1.env, Start))
    {
      NextBegins(s1, next, script);
    }
  }

  /** What the last slice of a dispatch left. */
  function LeftBy(p: Pending): Env { Left(p.script(p.visits)) }

  lemma NextBegins(s: State, next: string, script: Script)
    requires s.env.globals == CLEAR_GLOBALS && next != "" && next !in s.dispatches
    ensures Serve(s, Begin(next, script)).1.seen == Some(Visit(CLEAR_ENV, Start))
    ensures Step(s, Begin(next, script)).1.seen == Some(Visit(s.env, Start))
  {
    hide Merge, Concat;
  }

  // A response that escapes

  /** The n-th of the header names made of the letters a to p. */
  function Name(n: nat): (name: bytes)
    ensures 0 < |name| <= n + 1 && forall i :: 0 <= i < |name| ==> name[i] <= 0x70
  {
    if n < 16 then [Letter(n)] else Name(n / 16) + [Letter(n % 16)]
  }

  function Letter(digit: nat): byte
    requires digit < 16
  {
    (0x61 + digit) as byte
  }

  lemma SameLast(a: bytes, x: byte, b: bytes, y: byte)
    requires a + [x] == b + [y]
    ensures a == b && x == y
  {
    assert a == (a + [x])[..|a|] && b == (b + [y])[..|b|];
    assert x == (a + [x])[|a|] && y == (b + [y])[|b|];
  }

  lemma {:induction false} NamesDiffer(m: nat, n: nat)
    requires Name(m) == Name(n)
    ensures m == n
  {
    var a := if m < 16 then [] else Name(m / 16);
    var b := if n < 16 then [] else Name(n / 16);
    assert Name(m) == a + [Letter(m % 16)] && Name(n) == b + [Letter(n % 16)];
    SameLast(a, Letter(m % 16), b, Letter(n % 16));
    hide Name;
    if m >= 16 && n >= 16 { NamesDiffer(m / 16, n / 16); }
  }

  function Crowded(): Response {
    Response(200, seq(LIMIT16 - 1, i requires 0 <= i < LIMIT16 - 1 => Header(Name(i), [])), [], [])
  }

  lemma CrowdedIsFull()
    ensures InRange(Crowded()) && |Crowded().headers| == LIMIT16 - 1 && !HasHeader(Crowded().headers, CONTENT_TYPE)
  {
    var headers := Crowded().headers;
    assert CONTENT_TYPE[3] == 0x74;
    forall i, j | 0 <= i < j < |headers| ensures headers[i].name != headers[j].name {
      if Name(i) == Name(j) { NamesDiffer(i, j); }
    }
  }

  /** There is such a request: one that prints and returns 65535 headers without a content type. */
  lemma CrowdedEscapes(script: Script, printed: bytes)
    requires printed != [] && forall visits :: script(visits) == Turn(CLEAR_ENV, [printed], Returns(Layout(Crowded())))
    ensures Serve(START, Begin("request", script)).1.reply.Escaped?
  {
    CrowdedIsFull();
    hide Merge, Layout, Crowded, HasHeader, InRange;
    var s0 := START.(dispatches := map["request" := Fresh(script)]);
    assert START.dispatches["request" := Fresh(script)] == s0.dispatches;
    assert Concat([printed]) == printed + [];
    EscapesExactlyWhen(s0, "request", Start, Crowded());
  }

  // The history of a dispatch

  function OutputOf(script: Script, visits: seq<Visit>): bytes {
    if visits == [] then [] else OutputOf(script, visits[..|visits| - 1]) + Concat(script(visits).buffers)
  }

  function Previous(script: Script, visits: seq<Visit>): Env
  {
    if visits == [] then CLEAR_ENV else Restored(Captured(script(visits).env))
  }

  /** Every visit found exactly what the previous one left (the first found a clear
  environment), every earlier slice suspended, and the output is the concatenation of
  what this script itself printed. */
  ghost predicate Lived(p: Pending) {
    && |p.visits| > 0
    && (forall k :: 0 <= k < |p.visits| ==> p.visits[k].env == Previous(p.script, p.visits[..k]))
    && (forall k :: 0 < k < |p.visits| ==> p.script(p.visits[..k]).end.Suspends?)
    && p.output == OutputOf(p.script, p.visits)
  }

  /** A suspended request, saved exactly as its last slice left it. */
  ghost predicate Faithful(p: Pending) {
    && Lived(p)
    && p.script(p.visits).end.Suspends?
    && p.suspended
    && p.saved == Some(Captured(p.script(p.visits).env))
  }

  /** A request that returned a response its own output could not be merged into. */
  ghost predicate Stuck(p: Pending) {
    && Lived(p)
    && !p.suspended
    && p.script(p.visits).end.Returns?
    && Merge(p.script(p.visits).end.serialized, p.output).None?
  }

  ghost predicate AllFaithful(s: State) {
    && s.env.globals == CLEAR_GLOBALS
    && forall id :: id in s.dispatches ==> Faithful(s.dispatches[id]) || Stuck(s.dispatches[id])
  }

  lemma AdvanceLives(p: Pending, seen: Visit, suspended: bool, saved: Option<Env>)
    requires (p.visits == [] && p.output == [] && seen.env == CLEAR_ENV)
      || (Faithful(p) && seen.env == Restored(p.saved.value))
    ensures
      var visits := p.visits + [seen];
      var output := p.output + Concat(p.script(visits).buffers);
      Lived(Pending(p.script, visits, suspended, saved, output))
  {
    var visits := p.visits + [seen];
    assert visits[..|p.visits|] == p.visits;
    assert visits[..|visits| - 1] == p.visits;
    assert p.visits[..|p.visits|] == p.visits;
    forall k | 0 <= k < |visits| ensures visits[k].env == Previous(p.script, visits[..k]) {
      if k < |p.visits| { assert visits[..k] == p.visits[..k]; }
    }
    forall k | 0 < k < |visits| ensures p.script(visits[..k]).end.Suspends? {
      assert visits[..k] == p.visits[..k];
    }
  }

  lemma FaithfulIsSuspended(p: Pending)
    ensures Faithful(p) ==> p.suspended && p.saved.Some?
    ensures Stuck(p) ==> !p.suspended
  {
  }

  lemma FaithfulIsCalm(s: State)
    requires AllFaithful(s)
    ensures Calm(s)
  {
    forall id | id in s.dispatches ensures s.dispatches[id].suspended ==> s.dispatches[id].saved.Some? {
      FaithfulIsSuspended(s.dispatches[id]);
    }
  }

  /** An entry that `Advance` may be applied to. */
  ghost predicate Ready(s: State, id: string)
    requires id in s.dispatches
  {
    var p := s.dispatches[id];
    (p == Fresh(p.script) && s.env == CLEAR_ENV) || Faithful(p)
  }

  lemma AdvanceStaysFaithful(s: State, id: string, signal: Signal)
    requires id in s.dispatches && Ready(s, id)
    ensures var s1 := Advance(s, id, signal).0;
      id in s1.dispatches ==> Faithful(s1.dispatches[id]) || Stuck(s1.dispatches[id])
  {
    hide Ready, Advance, Faithful, Stuck;
    match TurnOf(s, id, signal).end
    case Suspends(_) => SuspendingStaysFaithful(s, id, signal);
    case Returns(_) => ReturningStaysFaithful(s, id, signal);
    case Throws => ThrowingLeavesNothing(s, id, signal);
  }

  lemma NextLives(s: State, id: string, signal: Signal, suspended: bool, saved: Option<Env>)
    requires id in s.dispatches && Ready(s, id)
    ensures
      var p := s.dispatches[id];
      var visits := p.visits + [Visit(Entered(s, p), signal)];
      Lived(Pending(p.script, visits, suspended, saved, p.output + Concat(p.script(visits).buffers)))
  {
    var p := s.dispatches[id];
    FaithfulIsSuspended(p);
    hide Lived, Concat;
    AdvanceLives(p, Visit(Entered(s, p), signal), suspended, saved);
  }

  lemma SuspendingStaysFaithful(s: State, id: string, signal: Signal)
    requires id in s.dispatches && Ready(s, id) && TurnOf(s, id, signal).end.Suspends?
    ensures var s1 := Advance(s, id, signal).0; id in s1.dispatches && Faithful(s1.dispatches[id])
  {
    hide Lived, Merge, Concat, Ready;
    NextLives(s, id, signal, true, Some(Captured(TurnOf(s, id, signal).env)));
  }

  lemma ReturningStaysFaithful(s: State, id: string, signal: Signal)
    requires id in s.dispatches && Ready(s, id) && TurnOf(s, id, signal).end.Returns?
    ensures var s1 := Advance(s, id, signal).0; id in s1.dispatches ==> Stuck(s1.dispatches[id])
  {
    hide Lived, Merge, Concat, Ready;
    NextLives(s, id, signal, false, s.dispatches[id].saved);
  }

  lemma ThrowingLeavesNothing(s: State, id: string, signal: Signal)
    requires id in s.dispatches && TurnOf(s, id, signal).end.Throws?
    ensures id !in Advance(s, id, signal).0.dispatches
  {
    hide Merge, Concat;
  }

  lemma ServeStaysFaithful(s: State, call: Call)
    requires AllFaithful(s)
    ensures AllFaithful(Serve(s, call).0)
  {
    FaithfulIsCalm(s);
    ServeIsLocal(s, call);
    var s0, s1 := Entry(s, call), Serve(s, call).0;
    if call.id in s.dispatches { FaithfulIsSuspended(s.dispatches[call.id]); }
    match call {
      case Begin(id, script) =>
        if id != "" && id !in s.dispatches {
          AdvanceStaysFaithful(s0.(dispatches := s0.dispatches[id := Fresh(script)]), id, Start);
        }
      case ResumeCall(id, result) =>
        if id in s.dispatches && s.dispatches[id].suspended && result.Some? {
          AdvanceStaysFaithful(s0, id, Resume(result.value));
        }
      case Cancel(id) =>
        if id in s.dispatches && s.dispatches[id].suspended { AdvanceStaysFaithful(s0, id, Interrupt); }
    }
    hide Advance, Faithful, Stuck;
    forall id | id in s1.dispatches ensures Faithful(s1.dispatches[id]) || Stuck(s1.dispatches[id]) {
      assert id != call.id ==> SameEntry(s, s1, id);
    }
  }

  /** Over every run, each table entry carries the history of a solo run: at every resume the
  request saw what it had when it suspended, and its output is its own. It is suspended, or
  its output could not be merged. */
  lemma {:induction false} HistoriesAreFaithful(s: State, calls: seq<Call>)
    requires AllFaithful(s)
    ensures AllFaithful(Run(s, calls).0)
    decreases calls
  {
    hide Serve, AllFaithful;
    if calls != [] {
      ServeStaysFaithful(s, calls[0]);
      HistoriesAreFaithful(Serve(s, calls[0]).0, calls[1..]);
    }
  }

  /** With scripts that leave room for a content type, every entry is suspended between calls
  and the whole environment is clear. */
  lemma RoomyRunsStaySuspended(calls: seq<Call>)
    requires forall i :: 0 <= i < |calls| && calls[i].Begin? ==> Roomy(calls[i].script)
    ensures var end := Run(START, calls).0;
      end.env == CLEAR_ENV && forall id :: id in end.dispatches ==> Faithful(end.dispatches[id])
  {
    hide Merge, Lived, Faithful, HasRoom;
    var end := Run(START, calls).0;
    RoomyScriptsNeverEscape(START, calls);
    EnvironmentIsClear(START, calls);
    HistoriesAreFaithful(START, calls);
    forall id | id in end.dispatches ensures Faithful(end.dispatches[id]) {
      var p := end.dispatches[id];
      if p.script(p.visits).end.Returns? { MergesInto(p.script(p.visits).end.serialized, p.output); }
    }
  }

  // What a call does, for its caller

  /** The script a call runs, and what that script has seen before. */
  function ScriptOf(s: State, call: Call): Script
    requires call.Begin? || call.id in s.dispatches
  {
    if call.Begin? then call.script else s.dispatches[call.id].script
  }

  function PastOf(s: State, call: Call): seq<Visit>
    requires call.Begin? || call.id in s.dispatches
  {
    if call.Begin? then [] else s.dispatches[call.id].visits
  }

  predicate IsWaiting(s: State, id: string) { id in s.dispatches && s.dispatches[id].suspended }

  /** A begin runs a new identifier, a resume hands a waiting Fiber exactly the given value, a
  cancel interrupts it; every other call runs nothing. The Fiber finds what it left, or a clear
  environment when it starts. */
  lemma ControlIsPassed(s: State, call: Call)
    requires AllFaithful(s)
    ensures
      var event := Serve(s, call).1;
      && (call.Begin? && call.id != "" && call.id !in s.dispatches ==> event.seen == Some(Visit(CLEAR_ENV, Start)))
      && (call.Begin? && (call.id == "" || call.id in s.dispatches) ==> event == Event(Rejected, None))
      && (call.ResumeCall? && IsWaiting(s, call.id) && call.result.Some? ==>
            event.seen == Some(Visit(Previous(ScriptOf(s, call), PastOf(s, call)), Resume(call.result.value))))
      && (call.ResumeCall? && !(IsWaiting(s, call.id) && call.result.Some?) ==> event == Event(Rejected, None))
      && (call.Cancel? && IsWaiting(s, call.id) ==>
            event.seen == Some(Visit(Previous(ScriptOf(s, call), PastOf(s, call)), Interrupt)))
      && (call.Cancel? && !IsWaiting(s, call.id) ==>
            event == Event(if call.id in s.dispatches then Dropped else Ignored, None))
  {
    hide Advance, Faithful, Stuck, Previous, Restored;
    var s0 := Entry(s, call);
    if call.Begin? {
      SeenIsEntered(s0.(dispatches := s0.dispatches[call.id := Fresh(call.script)]), call.id, Start);
    } else if call.id in s.dispatches {
      var p := s.dispatches[call.id];
      FaithfulIsSuspended(p);
      if p.suspended { SavedIsPrevious(p); }
      if call.ResumeCall? && call.result.Some? { SeenIsEntered(s0, call.id, Resume(call.result.value)); }
      if call.Cancel? { SeenIsEntered(s0, call.id, Interrupt); }
    }
  }

  lemma SavedIsPrevious(p: Pending)
    requires Faithful(p)
    ensures p.saved.Some? && Restored(p.saved.value) == Previous(p.script, p.visits)
  {
    hide OutputOf;
  }

  /** What the caller gets back when the Fiber has returned the response `r` and printed `output`
  over all its slices: an answer in the native format with `r` in it. The output is the body
  of a response without body and chunks, which then has a content type. */
  ghost predicate IsAnswer(reply: Reply, r: Response, output: bytes) {
    var fills := output != [] && r.body == [] && r.chunks == [];
    reply.Completed? && exists p: bytes, q: Response ::
      && reply.payload == [0x89, 0x50, 0x41, 0x4d, 0x01] + p && Decode(p) == Some((q, []))
      && q.status == r.status && q.chunks == r.chunks
      && q.body == (if fills then output else r.body)
      && q.headers == (if fills then Typed(r.headers) else r.headers)
  }

  lemma AnswerIsTheResponse(s: State, id: string, signal: Signal, r: Response, output: bytes)
    requires id in s.dispatches && InRange(r) && TurnOf(s, id, signal).end == Returns(Layout(r))
    requires output == s.dispatches[id].output + Concat(TurnOf(s, id, signal).buffers) && |output| < LIMIT32
    ensures Advance(s, id, signal).1.reply.Escaped? || IsAnswer(Advance(s, id, signal).1.reply, r, output)
  {
    hide Merge, Concat, Layout, Decode, Typed;
    MergeMeaning(r, output);
    RoundTrip(r, []);
    assert Layout(r) + [] == Layout(r);
    var merged := Merge(Layout(r), output);
    if merged.Some? {
      var q := Decode(merged.value).value.0;
      assert Decode(merged.value) == Some((q, []));
      assert Advance(s, id, signal).1.reply == Completed([0x89, 0x50, 0x41, 0x4d, 0x01] + merged.value);
    }
  }

  lemma OutputIsCollected(s: State, id: string, signal: Signal)
    requires id in s.dispatches && Ready(s, id)
    ensures
      var p := s.dispatches[id];
      OutputOf(p.script, p.visits + [Visit(Entered(s, p), signal)]) == p.output + Concat(TurnOf(s, id, signal).buffers)
  {
    hide Concat;
    var p := s.dispatches[id];
    var visits := p.visits + [Visit(Entered(s, p), signal)];
    assert visits[..|visits| - 1] == p.visits;
  }

  /** The answer to a Fiber that threw: a response with status 500. */
  ghost predicate IsFailure(reply: Reply) {
    reply.Completed? && exists p: bytes, q: Response ::
      reply.payload == [0x89, 0x50, 0x41, 0x4d, 0x01] + p && Decode(p) == Some((q, [])) && q.status == 500
  }

  lemma FailureIsAnswered(s: State, id: string, signal: Signal)
    requires id in s.dispatches && TurnOf(s, id, signal).end.Throws?
    ensures IsFailure(Advance(s, id, signal).1.reply)
  {
    var q := Response(
      500,
      [Header(CONTENT_TYPE, [Ascii("application/json; charset=utf-8")])],
      Ascii("{\"error\":\"Internal Server Error\",\"message\":\"The request dispatch failed.\"}"),
      []);
    assert |CONTENT_TYPE| == 12;
    hide Merge, Concat, Layout, Decode, Ascii;
    assert InRange(q);
    RoundTrip(q, []);
    assert Layout(q) + [] == Layout(q) == INTERNAL_ERROR;
    assert Advance(s, id, signal).1.reply.payload == [0x89, 0x50, 0x41, 0x4d, 0x01] + Layout(q);
  }

  /** The reply for the slice `turn`, when the Fiber has printed `output` so far. */
  ghost predicate Replies(reply: Reply, turn: Turn, output: bytes, r: Response) {
    && (turn.end.Suspends? ==> reply == Suspended(turn.end.operation))
    && (turn.end.Throws? ==> IsFailure(reply))
    && (InRange(r) && turn.end == Returns(Layout(r)) && |output| < LIMIT32 ==>
          reply.Escaped? || IsAnswer(reply, r, output))
  }

  lemma AdvanceReplies(s: State, id: string, signal: Signal, r: Response)
    requires id in s.dispatches && Ready(s, id)
    ensures
      var p := s.dispatches[id];
      var visits := p.visits + [Visit(Entered(s, p), signal)];
      Replies(Advance(s, id, signal).1.reply, p.script(visits), OutputOf(p.script, visits), r)
  {
    OutputIsCollected(s, id, signal);
    hide Merge, Concat, Layout, Ready, OutputOf, IsAnswer, IsFailure, InRange;
    var p := s.dispatches[id];
    var output := OutputOf(p.script, p.visits + [Visit(Entered(s, p), signal)]);
    match TurnOf(s, id, signal).end {
      case Suspends(_) =>
      case Throws => FailureIsAnswered(s, id, signal);
      case Returns(serialized) =>
        if InRange(r) && |output| < LIMIT32 {
          RangeIsPositive(r);
          if serialized == Layout(r) { AnswerIsTheResponse(s, id, signal, r, output); }
        }
    }
  }

  lemma RangeIsPositive(r: Response)
    requires InRange(r)
    ensures r.status >= 0
  {
  }

  /** What a call that ran a Fiber answers, whatever was seen and printed in earlier slices. */
  lemma ReplyMeans(s: State, call: Call, r: Response)
    requires AllFaithful(s) && Serve(s, call).1.seen.Some?
    ensures call.Begin? || call.id in s.dispatches
    ensures
      var event := Serve(s, call).1;
      var visits := PastOf(s, call) + [event.seen.value];
      Replies(event.reply, ScriptOf(s, call)(visits), OutputOf(ScriptOf(s, call), visits), r)
  {
    ControlIsPassed(s, call);
    var s0 := Entry(s, call);
    var base := if call.Begin? then s0.(dispatches := s0.dispatches[call.id := Fresh(call.script)]) else s0;
    var signal :=
      match call case Begin(_, _) => Start case ResumeCall(_, v) => Resume(v.value) case Cancel(_) => Interrupt;
    if !call.Begin? { FaithfulIsSuspended(s.dispatches[call.id]); }
    hide Advance, Replies, Merge, Concat, Faithful, Stuck, OutputOf;
    AdvanceReplies(base, call.id, signal, r);
    SeenIsEntered(base, call.id, signal);
  }

  lemma SeenIsEntered(s: State, id: string, signal: Signal)
    requires id in s.dispatches
    ensures Advance(s, id, signal).1.seen == Some(Visit(Entered(s, s.dispatches[id]), signal))
  {
    hide Merge, Concat;
  }

  // Conservation

  predicate Begins(event: Event) { event.seen.Some? && event.seen.value.signal.Start? }
  predicate Ends(event: Event) { event.reply.Completed? || event.reply.Dropped? }

  function CountBegun(events: seq<Event>): nat {
    if events == [] then 0 else (if Begins(events[0]) then 1 else 0) + CountBegun(events[1..])
  }

  function LiveAfter(live: set<string>, id: string, event: Event): set<string> {
    if Ends(event) then live - {id} else if Begins(event) then live + {id} else live
  }

  /** The identifiers begun and not ended, read off the history of calls alone. */
  function LiveIds(live: set<string>, calls: seq<Call>, events: seq<Event>): set<string>
    requires |calls| == |events|
    decreases calls
  {
    if calls == [] then live
    else
      LiveIds(LiveAfter(live, calls[0].id, events[0]), calls[1..], events[1..])
  }

  lemma AdvanceConserves(s: State, id: string, signal: Signal)
    requires id in s.dispatches
    ensures var (s1, event) := Advance(s, id, signal);
      && event.seen.Some? && event.seen.value.signal == signal && !event.reply.Dropped?
      && |s1.dispatches| + s1.completed == |s.dispatches| + s.completed
      && s1.dispatches.Keys == (if Ends(event) then s.dispatches.Keys - {id} else s.dispatches.Keys)
  {
    hide Merge, Concat;
    var (s1, event) := Advance(s, id, signal);
    if Ends(event) {
      RemoveCounts(s.dispatches, id);
    } else {
      assert s1.dispatches.Keys == s.dispatches.Keys;
      assert |s1.dispatches| == |s1.dispatches.Keys|;
    }
  }

  ghost predicate Conserves(s: State, call: Call, s1: State, event: Event) {
    && |s1.dispatches| + s1.completed == |s.dispatches| + s.completed + (if Begins(event) then 1 else 0)
    && s1.dispatches.Keys ==
        LiveAfter(s.dispatches.Keys, call.id, event)
    && (Begins(event) ==> call.Begin? && call.id !in s.dispatches)
    && (call.ResumeCall? && event.seen.Some? ==> call.id in s.dispatches && s.dispatches[call.id].suspended)
  }

  lemma BeginConserves(s: State, id: string, script: Script)
    ensures Conserves(s, Begin(id, script), Step(s, Begin(id, script)).0, Step(s, Begin(id, script)).1)
  {
    hide Advance;
    if id != "" && id !in s.dispatches {
      var s0 := s.(dispatches := s.dispatches[id := Fresh(script)]);
      assert s0.dispatches.Keys == s.dispatches.Keys + {id};
      assert |s0.dispatches| == |s.dispatches.Keys + {id}| == |s.dispatches| + 1;
      AdvanceConserves(s0, id, Start);
      assert s0.dispatches.Keys - {id} == s.dispatches.Keys - {id};
    }
  }

  lemma ResumeConserves(s: State, id: string, result: Option<string>)
    ensures Conserves(s, ResumeCall(id, result), Step(s, ResumeCall(id, result)).0, Step(s, ResumeCall(id, result)).1)
  {
    hide Advance;
    if id in s.dispatches && s.dispatches[id].suspended && result.Some? {
      AdvanceConserves(s, id, Resume(result.value));
    }
  }

  lemma CancelConserves(s: State, id: string)
    ensures Conserves(s, Cancel(id), Step(s, Cancel(id)).0, Step(s, Cancel(id)).1)
  {
    hide Advance;
    if id in s.dispatches {
      RemoveCounts(s.dispatches, id);
      AdvanceConserves(s, id, Interrupt);
    }
  }

  lemma StepConserves(s: State, call: Call)
    ensures Conserves(s, call, Step(s, call).0, Step(s, call).1)
    ensures Conserves(s, call, Serve(s, call).0, Serve(s, call).1)
  {
    hide Step;
    var s0 := Entry(s, call);
    match call
    case Begin(id, script) => BeginConserves(s, id, script); BeginConserves(s0, id, script);
    case ResumeCall(id, result) => ResumeConserves(s, id, result); ResumeConserves(s0, id, result);
    case Cancel(id) => CancelConserves(s, id);
  }

  lemma RemoveCounts(m: map<string, Pending>, id: string)
    requires id in m
    ensures (m - {id}).Keys == m.Keys - {id}
    ensures |m - {id}| == |m| - 1
  {
    assert |(m - {id}).Keys| == |m.Keys| - 1;
  }

  /** Conservation over every run, escapes and re-suspending cancellations included: the
  table holds exactly the begun-but-unfinished identifiers, and what was begun is either
  still there or has been completed. */
  lemma {:induction false} DispatchesAreConserved(s: State, calls: seq<Call>)
    ensures var (s', events) := Run(s, calls);
      && |events| == |calls|
      && s'.dispatches.Keys == LiveIds(s.dispatches.Keys, calls, events)
      && |s'.dispatches| + s'.completed == |s.dispatches| + s.completed + CountBegun(events)
    decreases calls
  {
    hide Serve;
    RunLength(s, calls);
    if calls != [] {
      var s1 := Serve(s, calls[0]).0;
      StepConserves(s, calls[0]);
      DispatchesAreConserved(s1, calls[1..]);
      assert Run(s, calls).1[1..] == Run(s1, calls[1..]).1;
    }
  }

  // The dispatcher as the source runs it

  lemma {:induction false} ConcatSnoc(buffers: seq<bytes>, last: bytes)
    ensures Concat(buffers + [last]) == Concat(buffers) + last
  {
    if buffers == [] {
      assert buffers + [last] == [last];
    } else {
      ConcatSnoc(buffers[1..], last);
      assert (buffers + [last])[1..] == buffers[1..] + [last];
    }
  }

  class Runtime {
    var dispatches: map<string, Pending>
    var env: Env
    var buffers: seq<bytes>     // PHP's output buffer stack
    var completed: nat

    ghost function View(): State reads this { State(dispatches, env, completed) }

    constructor ()
      ensures View() == START && buffers == []
    {
      dispatches, env, buffers, completed := map[], CLEAR_ENV, [], 0;
    }

    method ClearHttpEnvironment()
      modifies `env
      ensures env == CLEAR_ENV
    {
      env := Env(CLEAR_GLOBALS, [], 200);
    }

    method RestoreHttpEnvironment(saved: Env)
      modifies `env
      ensures env == Restored(saved)
    {
      env := Env(ArraysOnly(saved.globals), [], env.status);
      for i := 0 to |saved.headers|
        invariant env.headers == saved.headers[..i] && env.globals == ArraysOnly(saved.globals)
      {
        env := env.(headers := env.headers + [saved.headers[i]]);
      }
      env := env.(status := saved.status);
    }

    /** Folds every nested buffer into the one below it and takes the dispatcher's own. */
    method CollectOutput(level: nat) returns (captured: bytes)
      requires level <= |buffers|
      modifies `buffers
      ensures buffers == old(buffers)[..level]
      ensures captured == Concat(old(buffers)[level..])
    {
      while |buffers| > level + 1
        invariant level <= |buffers| <= |old(buffers)|
        invariant buffers[..level] == old(buffers)[..level]
        invariant Concat(buffers[level..]) == Concat(old(buffers)[level..])
        decreases |buffers|
      {
        var top := |buffers| - 1;
        var nested, below := buffers[top], buffers[top - 1];
        ConcatSnoc(buffers[level..top], nested);
        ConcatSnoc(buffers[level..top - 1], below);
        ConcatSnoc(buffers[level..top - 1], below + nested);
        assert buffers[level..] == buffers[level..top] + [nested];
        assert buffers[level..top] == buffers[level..top - 1] + [below];
        buffers := buffers[..top - 1] + [below + nested];
        assert buffers[level..] == buffers[level..top - 1] + [below + nested];
      }
      captured := [];
      if |buffers| > level {
        captured := buffers[level];
        assert buffers[level..] == [captured];
        buffers := buffers[..level];
      }
    }

    /** Restores the environment, runs one slice of the Fiber and collects its output. */
    method RunFiber(p: Pending, signal: Signal) returns (visits: seq<Visit>, output: bytes, end: End)
      modifies `env, `buffers
      ensures visits == p.visits + [Visit(Entered(old(View()), p), signal)]
      ensures env == Left(p.script(visits)) && end == p.script(visits).end
      ensures output == p.output + Concat(p.script(visits).buffers)
      ensures buffers == old(buffers)
    {
      if p.saved.Some? {
        RestoreHttpEnvironment(p.saved.value);
      }
      var level := |buffers|;
      buffers := buffers + [[]];
      visits := p.visits + [Visit(env, signal)];
      var turn := p.script(visits);
      env, buffers := turn.env, buffers[..level] + turn.buffers;
      if turn.end.Returns? {
        env := env.(globals := CLEAR_GLOBALS);    // the `finally` block of `executeHttp`
      }
      assert buffers[level..] == turn.buffers;
      var captured := CollectOutput(level);
      output, end := p.output + captured, turn.end;
    }

    method AdvanceHttpDispatch(id: string, signal: Signal) returns (reply: Reply)
      requires id in dispatches
      modifies this
      ensures View() == Advance(old(View()), id, signal).0
      ensures reply == Advance(old(View()), id, signal).1.reply
      ensures buffers == old(buffers)
    {
      hide Merge, Concat, Entered, Layout;
      var p := dispatches[id];
      var visits, output, end := RunFiber(p, signal);
      var serialized := INTERNAL_ERROR;
      match end {
        case Suspends(operation) =>
          dispatches := dispatches[id := Pending(p.script, visits, true, Some(Captured(env)), output)];
          ClearHttpEnvironment();
          return Suspended(operation);
        case Throws =>
        case Returns(response) =>
          var merged := Merge(response, output);
          if merged.None? {
            dispatches := dispatches[id := Pending(p.script, visits, false, p.saved, output)];
            return Escaped;
          }
          serialized := merged.value;
      }
      dispatches := dispatches - {id};
      ClearHttpEnvironment();
      completed := completed + 1;
      return Completed(MAGIC + serialized);
    }

    method BeginHttpDispatch(id: string, script: Script) returns (reply: Reply)
      modifies this
      ensures View() == Step(old(View()), Begin(id, script)).0
      ensures reply == Step(old(View()), Begin(id, script)).1.reply
      ensures buffers == old(buffers)
    {
      if id == "" || id in dispatches {
        return Rejected;
      }
      dispatches := dispatches[id := Fresh(script)];
      reply := AdvanceHttpDispatch(id, Start);
    }

    method ResumeHttpDispatch(id: string, result: Option<string>) returns (reply: Reply)
      modifies this
      ensures View() == Step(old(View()), ResumeCall(id, result)).0
      ensures reply == Step(old(View()), ResumeCall(id, result)).1.reply
      ensures buffers == old(buffers)
    {
      if id !in dispatches || !dispatches[id].suspended || result.None? {
        return Rejected;
      }
      reply := AdvanceHttpDispatch(id, Resume(result.value));
    }

    method CancelHttpDispatch(id: string) returns (reply: Reply)
      modifies this
      ensures View() == Step(old(View()), Cancel(id)).0
      ensures reply == Step(old(View()), Cancel(id)).1.reply
      ensures buffers == old(buffers)
    {
      if id !in dispatches {
        return Ignored;
      }
      if dispatches[id].suspended {
        reply := AdvanceHttpDispatch(id, Interrupt);
        return;
      }
      dispatches := dispatches - {id};
      ClearHttpEnvironment();
      completed := completed + 1;
      return Dropped;
    }

    /** The native entry points, which reset header bag and status before they call PHP. */
    method ServeBegin(id: string, script: Script) returns (reply: Reply)
      modifies this
      ensures View() == Serve(old(View()), Begin(id, script)).0
      ensures reply == Serve(old(View()), Begin(id, script)).1.reply
    {
      env := env.(headers := [], status := 200);
      reply := BeginHttpDispatch(id, script);
    }

    method ServeResume(id: string, result: Option<string>) returns (reply: Reply)
      modifies this
      ensures View() == Serve(old(View()), ResumeCall(id, result)).0
      ensures reply == Serve(old(View()), ResumeCall(id, result)).1.reply
    {
      env := env.(headers := [], status := 200);
      reply := ResumeHttpDispatch(id, result);
    }
  }
}
