/** Distributed WebSocket broadcast over a shared append-only stream.

Every node appends its own broadcasts to the stream and relays what it finds there behind
its cursor, leaving out its own entries. JSON is replaced by what it decodes to. */
module Broadcast {
  import opened Text

  /** A broadcast or room message, with the node that emitted it. */
  datatype Notice = Notice(node: string, channel: string, event: string, data: string)

  /** A stream entry. Anything may be in the stream, not only what PAM nodes append. */
  datatype Entry =
    | Unreadable                  // the payload is not JSON: draining throws
    | Ignored                     // missing fields, or a payload that is not an object
    | Published(notice: Notice)

  predicate IsDeliverable(n: Notice) {
    n.event != "" && (n.channel == "broadcast" || "room:" <= n.channel)
  }

  /** What a node queues for one entry. */
  function Relay(entry: Entry, self: string): seq<Notice> {
    if entry.Published? && entry.notice.node != self && IsDeliverable(entry.notice) then [entry.notice] else []
  }

  function RelayAll(entries: seq<Entry>, self: string): seq<Notice> {
    if entries == [] then [] else Relay(entries[0], self) + RelayAll(entries[1..], self)
  }

  lemma {:induction false} RelayAppend(a: seq<Entry>, b: seq<Entry>, self: string)
    ensures RelayAll(a + b, self) == RelayAll(a, self) + RelayAll(b, self)
  {
    if a == [] {
      assert a + b == b;
    } else {
      RelayAppend(a[1..], b, self);
      assert (a + b)[0] == a[0] && (a + b)[1..] == a[1..] + b;
      Associate(Relay(a[0], self), RelayAll(a[1..], self), RelayAll(b, self));
    }
  }

  const BATCH: nat := 100

  /** The number of entries one drain consumes: at most a batch, and no further than the
  first unreadable one. */
  function Consumed(entries: seq<Entry>, limit: nat): (n: nat)
    ensures n <= |entries| && n <= limit
    ensures entries != [] && limit > 0 ==> n > 0
    decreases entries
  {
    if entries == [] || limit == 0 then 0
    else if entries[0].Unreadable? then 1
    else 1 + Consumed(entries[1..], limit - 1)
  }

  // One node

  datatype Node = Node(start: nat, cursor: nat, relayed: seq<Notice>, emitted: seq<Notice>)

  /** A node after a poll that consumed `k` entries. */
  function Polled(log: seq<Entry>, id: string, n: Node, k: nat): Node
    requires n.cursor + k <= |log|
  {
    n.(cursor := n.cursor + k, relayed := n.relayed + RelayAll(log[n.cursor..n.cursor + k], id))
  }

  datatype System = System(log: seq<Entry>, nodes: map<string, Node>)

  datatype Action =
    | Join(node: string)           // possibly again, under an identifier used before
    | Leave(node: string)
    | Emit(node: string, channel: string, event: string, data: string)
    | Poll(node: string)
    | Inject(entry: Entry)         // some other program writes to the stream

  predicate Enabled(s: System, a: Action) {
    match a
    case Join(node) => node !in s.nodes
    case Leave(node) => node in s.nodes
    case Emit(node, channel, event, data) => node in s.nodes && IsDeliverable(Notice(node, channel, event, data))
    case Poll(node) => node in s.nodes && s.nodes[node].cursor <= |s.log|
    case Inject(entry) => entry.Published? ==> entry.notice.node !in s.nodes
  }

  function Step(s: System, a: Action): System
    requires Enabled(s, a)
  {
    match a
    case Join(node) => s.(nodes := s.nodes[node := Node(|s.log|, |s.log|, [], [])])
    case Leave(node) => s.(nodes := s.nodes - {node})
    case Emit(node, channel, event, data) =>
      var notice := Notice(node, channel, event, data);
      var n := s.nodes[node];
      System(s.log + [Published(notice)], s.nodes[node := n.(emitted := n.emitted + [notice])])
    case Poll(node) =>
      var n := s.nodes[node];
      var k := Consumed(s.log[n.cursor..], BATCH);
      s.(nodes := s.nodes[node := Polled(s.log, node, n, k)])
    case Inject(entry) => s.(log := s.log + [entry])
  }

  /** The notices of one origin, in stream order. */
  function From(entries: seq<Entry>, origin: string): seq<Notice> {
    if entries == [] then [] else FromOne(entries[0], origin) + From(entries[1..], origin)
  }

  function FromOne(entry: Entry, origin: string): seq<Notice> {
    if entry.Published? && entry.notice.node == origin then [entry.notice] else []
  }

  lemma {:induction false} FromAppend(a: seq<Entry>, b: seq<Entry>, origin: string)
    ensures From(a + b, origin) == From(a, origin) + From(b, origin)
  {
    if a == [] {
      assert a + b == b;
    } else {
      FromAppend(a[1..], b, origin);
      assert (a + b)[0] == a[0] && (a + b)[1..] == a[1..] + b;
      Associate(FromOne(a[0], origin), From(a[1..], origin), From(b, origin));
    }
  }

  ghost predicate NodeOk(log: seq<Entry>, id: string, n: Node) {
    && n.start <= n.cursor <= |log|
    && n.relayed == RelayAll(log[n.start..n.cursor], id)
    && n.emitted == From(log[n.start..], id)
    && (forall i :: 0 <= i < |n.emitted| ==> IsDeliverable(n.emitted[i]))
  }

  /** Every node has relayed, in order and once each, exactly the foreign entries between
  its start and its cursor; and its own emissions are exactly its entries since its start. */
  ghost predicate Inv(s: System) { forall id :: id in s.nodes ==> NodeOk(s.log, id, s.nodes[id]) }

  /** What one more entry changes: nothing before it, and one notice of its own node. */
  lemma {:induction false} AppendedView(log: seq<Entry>, entry: Entry, start: nat, cursor: nat, id: string)
    requires start <= cursor <= |log|
    ensures (log + [entry])[start..cursor] == log[start..cursor]
    ensures From((log + [entry])[start..], id) == From(log[start..], id) + FromOne(entry, id)
  {
    assert From([entry], id) == FromOne(entry, id) by {
      assert [entry][1..] == [] && FromOne(entry, id) + [] == FromOne(entry, id);
    }
    hide From, FromOne;
    assert (log + [entry])[start..] == log[start..] + [entry];
    FromAppend(log[start..], [entry], id);
  }

  lemma {:induction false} AppendKeepsOthers(log: seq<Entry>, entry: Entry, id: string, n: Node)
    requires NodeOk(log, id, n) && !(entry.Published? && entry.notice.node == id)
    ensures NodeOk(log + [entry], id, n)
  {
    hide RelayAll, From;
    AppendedView(log, entry, n.start, n.cursor, id);
    assert n.emitted + [] == n.emitted;
  }

  lemma {:induction false} EmitKeepsOwn(log: seq<Entry>, notice: Notice, n: Node)
    requires NodeOk(log, notice.node, n) && IsDeliverable(notice)
    ensures NodeOk(log + [Published(notice)], notice.node, n.(emitted := n.emitted + [notice]))
  {
    hide RelayAll, From;
    AppendedView(log, Published(notice), n.start, n.cursor, notice.node);
  }

  lemma PollKeepsNode(log: seq<Entry>, id: string, n: Node, k: nat)
    requires NodeOk(log, id, n) && n.cursor + k <= |log|
    ensures NodeOk(log, id, Polled(log, id, n, k))
  {
    hide RelayAll, From;
    RelayAppend(log[n.start..n.cursor], log[n.cursor..n.cursor + k], id);
    assert log[n.start..n.cursor] + log[n.cursor..n.cursor + k] == log[n.start..n.cursor + k];
  }

  lemma StepKeepsInv(s: System, a: Action)
    requires Inv(s) && Enabled(s, a)
    ensures Inv(Step(s, a))
  {
    hide NodeOk, From, RelayAll;
    var s1 := Step(s, a);
    forall id | id in s1.nodes ensures NodeOk(s1.log, id, s1.nodes[id]) {
      match a
      case Join(node) =>
        if id == node { NewcomerIsOk(s.log, id); }
      case Leave(_) =>
      case Emit(node, channel, event, data) =>
        var notice := Notice(node, channel, event, data);
        if id == node {
          EmitKeepsOwn(s.log, notice, s.nodes[id]);
        } else {
          AppendKeepsOthers(s.log, Published(notice), id, s.nodes[id]);
        }
      case Poll(node) =>
        if id == node {
          PollKeepsNode(s.log, id, s.nodes[id], Consumed(s.log[s.nodes[id].cursor..], BATCH));
        }
      case Inject(entry) =>
        AppendKeepsOthers(s.log, entry, id, s.nodes[id]);
    }
  }

  lemma NewcomerIsOk(log: seq<Entry>, id: string)
    ensures NodeOk(log, id, Node(|log|, |log|, [], []))
  {
    assert log[|log|..] == [];
    assert log[|log|..|log|] == [];
  }

  // Runs

  ghost predicate Lawful(s: System, actions: seq<Action>)
    decreases |actions|
  {
    actions == [] || (Enabled(s, actions[0]) && Lawful(Step(s, actions[0]), actions[1..]))
  }

  ghost function End(s: System, actions: seq<Action>): System
    requires Lawful(s, actions)
    decreases |actions|
  {
    if actions == [] then s else End(Step(s, actions[0]), actions[1..])
  }

  lemma {:induction false} EveryRunDelivers(s: System, actions: seq<Action>)
    requires Inv(s) && Lawful(s, actions)
    ensures Inv(End(s, actions))
    decreases |actions|
  {
    hide Inv, Enabled, Step;
    if actions != [] {
      StepKeepsInv(s, actions[0]);
      EveryRunDelivers(Step(s, actions[0]), actions[1..]);
    }
  }

  function OfOrigin(notices: seq<Notice>, origin: string): seq<Notice> {
    if notices == [] then [] else OfOne(notices[0], origin) + OfOrigin(notices[1..], origin)
  }

  function OfOne(notice: Notice, origin: string): seq<Notice> { if notice.node == origin then [notice] else [] }

  lemma {:induction false} OfOriginAppend(a: seq<Notice>, b: seq<Notice>, origin: string)
    ensures OfOrigin(a + b, origin) == OfOrigin(a, origin) + OfOrigin(b, origin)
  {
    if a == [] {
      assert a + b == b;
    } else {
      OfOriginAppend(a[1..], b, origin);
      assert (a + b)[0] == a[0] && (a + b)[1..] == a[1..] + b;
      Associate(OfOne(a[0], origin), OfOrigin(a[1..], origin), OfOrigin(b, origin));
    }
  }

  lemma {:induction false} RelayedOfOrigin(entries: seq<Entry>, self: string, origin: string)
    requires self != origin
    requires forall i | 0 <= i < |entries| && entries[i].Published? && entries[i].notice.node == origin ::
               IsDeliverable(entries[i].notice)
    ensures OfOrigin(RelayAll(entries, self), origin) == From(entries, origin)
  {
    if entries != [] {
      var tail := entries[1..];
      assert forall i :: 0 <= i < |tail| ==> tail[i] == entries[i + 1];
      RelayedOfOrigin(tail, self, origin);
      OfOriginAppend(Relay(entries[0], self), RelayAll(tail, self), origin);
      var head := Relay(entries[0], self);
      assert head == [] || head == [entries[0].notice];
      if head != [] { assert head[1..] == []; }
    }
  }

  lemma {:induction false} EmittedEntriesAreDeliverable(log: seq<Entry>, origin: string, k: nat)
    requires k < |log| && log[k].Published? && log[k].notice.node == origin
    ensures exists i :: 0 <= i < |From(log, origin)| && From(log, origin)[i] == log[k].notice
  {
    assert log == log[..k] + ([log[k]] + log[k + 1..]);
    FromAppend(log[..k], [log[k]] + log[k + 1..], origin);
    FromAppend([log[k]], log[k + 1..], origin);
    assert From([log[k]], origin) == [log[k].notice];
    assert From(log, origin)[|From(log[..k], origin)|] == log[k].notice;
  }

  /** End to end: when a node has caught up, what it relayed from any other node ends with that
  node's emissions since both were there, complete, in order and without duplicates. Before
  them come only entries that the other's identifier had in the stream before it joined. */
  lemma CaughtUpNodesAgree(s: System, reader: string, writer: string)
    requires Inv(s) && reader in s.nodes && writer in s.nodes && reader != writer
    requires s.nodes[reader].cursor == |s.log|
    ensures
      var r, w := s.nodes[reader], s.nodes[writer];
      && (w.start <= r.start ==>
            w.emitted == From(s.log[w.start..r.start], writer) + OfOrigin(r.relayed, writer))
      && (r.start <= w.start ==>
            OfOrigin(r.relayed, writer) == OfOrigin(RelayAll(s.log[r.start..w.start], reader), writer) + w.emitted)
  {
    var r, w := s.nodes[reader], s.nodes[writer];
    assert NodeOk(s.log, reader, r) && NodeOk(s.log, writer, w);
    var both := if w.start <= r.start then r.start else w.start;
    hide RelayAll, OfOrigin, From, Inv;
    assert s.log[r.start..r.cursor] == s.log[r.start..];
    SplitFrom(s.log, w.start, both, writer);
    SplitRelayed(s.log, r.start, both, reader, writer);
    LaterEntriesArrive(s.log, w, both, reader, writer);
  }

  lemma SplitFrom(log: seq<Entry>, start: nat, middle: nat, origin: string)
    requires start <= middle <= |log|
    ensures From(log[start..], origin) == From(log[start..middle], origin) + From(log[middle..], origin)
    ensures start == middle ==> From(log[start..], origin) == From(log[middle..], origin)
  {
    assert log[start..] == log[start..middle] + log[middle..];
    FromAppend(log[start..middle], log[middle..], origin);
  }

  lemma SplitRelayed(log: seq<Entry>, start: nat, middle: nat, self: string, origin: string)
    requires start <= middle <= |log|
    ensures OfOrigin(RelayAll(log[start..], self), origin) ==
            OfOrigin(RelayAll(log[start..middle], self), origin) + OfOrigin(RelayAll(log[middle..], self), origin)
  {
    hide OfOrigin, RelayAll;
    assert log[start..] == log[start..middle] + log[middle..];
    RelayAppend(log[start..middle], log[middle..], self);
    OfOriginAppend(RelayAll(log[start..middle], self), RelayAll(log[middle..], self), origin);
  }

  lemma LaterEntriesArrive(log: seq<Entry>, w: Node, both: nat, reader: string, writer: string)
    requires NodeOk(log, writer, w) && w.start <= both <= |log| && reader != writer
    ensures OfOrigin(RelayAll(log[both..], reader), writer) == From(log[both..], writer)
  {
    hide OfOrigin, RelayAll, From;
    var window := log[both..];
    forall i | 0 <= i < |window| && window[i].Published? && window[i].notice.node == writer
      ensures IsDeliverable(window[i].notice)
    {
      assert log[w.start..][both - w.start + i] == window[i];
      EmittedEntriesAreDeliverable(log[w.start..], writer, both - w.start + i);
    }
    RelayedOfOrigin(window, reader, writer);
  }

  // What is relayed, read off the stream alone

  /** Entry `i` is somebody else's named event for everybody or for a room. */
  predicate IsForeign(log: seq<Entry>, i: nat, id: string)
    requires i < |log|
  {
    && log[i].Published? && log[i].notice.node != id && log[i].notice.event != ""
    && var channel := log[i].notice.channel;
       channel == "broadcast" || (|channel| >= 5 && channel[..5] == "room:")
  }

  /** `notices` are the foreign entries of a stretch of the stream: all of them, in order, once
  each, and nothing else. */
  ghost predicate AreForeign(log: seq<Entry>, start: nat, cursor: nat, id: string, notices: seq<Notice>, at: seq<nat>) {
    && start <= cursor <= |log| && |at| == |notices| && Ascending(at, start, cursor)
    && (forall k :: 0 <= k < |at| ==> IsForeign(log, at[k], id) && notices[k] == log[at[k]].notice)
    && (forall i :: start <= i < cursor && IsForeign(log, i, id) ==> i in at)
  }

  lemma {:induction false} OneMoreForeign(
      log: seq<Entry>, start: nat, last: nat, id: string, notices: seq<Notice>, at: seq<nat>)
    requires last < |log| && AreForeign(log, start, last, id, notices, at)
    ensures IsForeign(log, last, id) ==>
              AreForeign(log, start, last + 1, id, notices + [log[last].notice], at + [last])
    ensures !IsForeign(log, last, id) ==> AreForeign(log, start, last + 1, id, notices, at)
  {
    hide IsForeign;
    forall i | start <= i < last + 1 && IsForeign(log, i, id) ensures i in at || i == last {
    }
    var grown := at + [last];
    assert forall k :: 0 <= k < |at| ==> grown[k] == at[k];
    assert grown[|at|] == last;
    assert forall i :: i in at ==> i in grown;
  }

  lemma {:induction false} OneMoreRelayed(log: seq<Entry>, start: nat, last: nat, id: string)
    requires start <= last < |log|
    ensures RelayAll(log[start..last + 1], id) ==
            RelayAll(log[start..last], id) + (if IsForeign(log, last, id) then [log[last].notice] else [])
  {
    assert RelayAll([log[last]], id) == Relay(log[last], id) by { assert [log[last]][1..] == []; }
    assert Relay(log[last], id) == if IsForeign(log, last, id) then [log[last].notice] else [];
    hide RelayAll, Relay, IsForeign;
    assert log[start..last + 1] == log[start..last] + [log[last]];
    RelayAppend(log[start..last], [log[last]], id);
  }

  lemma {:induction false} RelayedAreForeign(log: seq<Entry>, start: nat, cursor: nat, id: string)
    returns (at: seq<nat>)
    requires start <= cursor <= |log|
    ensures AreForeign(log, start, cursor, id, RelayAll(log[start..cursor], id), at)
    decreases cursor
  {
    at := [];
    if start == cursor {
      assert log[start..cursor] == [];
    } else {
      var last := cursor - 1;
      at := RelayedAreForeign(log, start, last, id);
      hide AreForeign, RelayAll, IsForeign;
      var before := RelayAll(log[start..last], id);
      OneMoreForeign(log, start, last, id, before, at);
      OneMoreRelayed(log, start, last, id);
      assert before + [] == before;
      if IsForeign(log, last, id) { at := at + [last]; }
    }
  }

  lemma {:induction false} NoneOfOrigin(notices: seq<Notice>, origin: string)
    requires forall k :: 0 <= k < |notices| ==> notices[k].node != origin
    ensures OfOrigin(notices, origin) == []
  {
    if notices != [] { NoneOfOrigin(notices[1..], origin); }
  }

  /** In every reachable state a node has queued from the stream exactly the foreign entries
  between its start and its cursor, in order and once each, and none of its own. */
  lemma QueuedAreForeign(s: System, id: string) returns (at: seq<nat>)
    requires Inv(s) && id in s.nodes
    ensures var n := s.nodes[id];
            AreForeign(s.log, n.start, n.cursor, id, n.relayed, at) && OfOrigin(n.relayed, id) == []
  {
    var n := s.nodes[id];
    at := RelayedAreForeign(s.log, n.start, n.cursor, id);
    NoneOfOrigin(n.relayed, id);
  }

  /** A poll goes on to the end of the stream or of its batch, unless an unreadable entry stops
  it, which is then the last it consumes. */
  lemma {:induction false} ConsumedExactly(entries: seq<Entry>, limit: nat)
    ensures var n := Consumed(entries, limit);
            && n <= |entries| && n <= limit
            && (forall i :: 0 <= i < n - 1 ==> !entries[i].Unreadable?)
            && (n == |entries| || n == limit || (n > 0 && entries[n - 1].Unreadable?))
    decreases |entries|
  {
    if entries != [] && limit > 0 && !entries[0].Unreadable? {
      ConsumedExactly(entries[1..], limit - 1);
      var n := Consumed(entries, limit);
      assert forall i :: 0 < i < n ==> entries[i] == entries[1..][i - 1];
    }
  }

  // Delivery

  lemma {:induction false} FirstStep(s: System, a: Action, later: seq<Action>)
    requires Enabled(s, a) && Lawful(Step(s, a), later)
    ensures Lawful(s, [a] + later) && End(s, [a] + later) == End(Step(s, a), later)
  {
    hide Enabled, Step;
    assert ([a] + later)[1..] == later;
  }

  function Polls(node: string, n: nat): seq<Action> { seq(n, _ => Poll(node)) }

  /** As many polls as there are entries ahead bring a node to the end of the stream. */
  lemma {:induction false} PollsCatchUp(s: System, id: string, n: nat)
    requires Inv(s) && id in s.nodes && |s.log| - s.nodes[id].cursor <= n
    ensures Lawful(s, Polls(id, n))
    ensures
      var t := End(s, Polls(id, n));
      && Inv(t) && t.log == s.log
      && id in t.nodes && t.nodes[id].start == s.nodes[id].start && t.nodes[id].cursor == |s.log|
    decreases n
  {
    assert NodeOk(s.log, id, s.nodes[id]);
    if n > 0 {
      assert Polls(id, n)[0] == Poll(id) && Polls(id, n)[1..] == Polls(id, n - 1);
      StepKeepsInv(s, Poll(id));
      hide Inv, NodeOk;
      PollsCatchUp(Step(s, Poll(id)), id, n - 1);
    }
  }

  lemma RelayedLast(log: seq<Entry>, notice: Notice, start: nat, id: string)
    requires start <= |log| && notice.node != id && IsDeliverable(notice)
    ensures
      var relayed := RelayAll((log + [Published(notice)])[start..], id);
      relayed != [] && relayed[|relayed| - 1] == notice
  {
    var entry := Published(notice);
    assert (log + [entry])[start..] == log[start..] + [entry];
    RelayAppend(log[start..], [entry], id);
    assert RelayAll([entry], id) == [notice] + RelayAll([entry][1..], id) == [notice];
  }

  /** The message that an action puts into the stream for others. */
  function Sends(a: Action): Option<Notice> {
    match a
    case Emit(node, channel, event, data) => Some(Notice(node, channel, event, data))
    case Inject(Published(notice)) => if IsDeliverable(notice) then Some(notice) else None
    case _ => None
  }

  lemma SendsAppends(s: System, a: Action, id: string)
    requires Inv(s) && Enabled(s, a) && id in s.nodes && Sends(a).Some? && Sends(a).value.node != id
    ensures IsDeliverable(Sends(a).value)
    ensures s.nodes[id].start <= |s.log|
    ensures
      var t := Step(s, a);
      Inv(t) && t.log == s.log + [Published(Sends(a).value)] && id in t.nodes && t.nodes[id] == s.nodes[id]
  {
    assert NodeOk(s.log, id, s.nodes[id]);
    StepKeepsInv(s, a);
  }

  lemma CaughtUpHasLast(t: System, log: seq<Entry>, notice: Notice, id: string)
    requires Inv(t) && id in t.nodes && t.log == log + [Published(notice)]
    requires t.nodes[id].start <= |log| && t.nodes[id].cursor == |t.log|
    requires notice.node != id && IsDeliverable(notice)
    ensures t.nodes[id].relayed != [] && t.nodes[id].relayed[|t.nodes[id].relayed| - 1] == notice
  {
    assert NodeOk(t.log, id, t.nodes[id]);
    assert t.log[t.nodes[id].start..t.nodes[id].cursor] == t.log[t.nodes[id].start..];
    RelayedLast(log, notice, t.nodes[id].start, id);
  }

  /** Whatever is emitted, or published by others, reaches every other node: once it has polled
  through the stream, the message is the last that it queued. */
  lemma {:induction false} MessagesArrive(s: System, a: Action, id: string, n: nat)
    requires Inv(s) && Enabled(s, a) && id in s.nodes
    requires Sends(a).Some? && Sends(a).value.node != id && n > |s.log| - s.nodes[id].cursor
    ensures Lawful(s, [a] + Polls(id, n))
    ensures
      var t := End(s, [a] + Polls(id, n));
      id in t.nodes && t.nodes[id].relayed != [] && t.nodes[id].relayed[|t.nodes[id].relayed| - 1] == Sends(a).value
  {
    hide Step, Enabled, Inv, IsDeliverable, Polls, Sends, Lawful, End;
    SendsAppends(s, a, id);
    PollsCatchUp(Step(s, a), id, n);
    FirstStep(s, a, Polls(id, n));
    CaughtUpHasLast(End(s, [a] + Polls(id, n)), s.log, Sends(a).value, id);
  }

  // The source's loop

  class Worker {
    const id: string
    var cursor: nat
    var outbound: seq<Notice>     // messages queued during the current dispatch

    constructor (id: string, log: seq<Entry>)
      ensures this.id == id && cursor == |log| && outbound == []
    {
      this.id := id;
      cursor := |log|;            // the latest entry, or the beginning of an empty stream
      outbound := [];
    }

    /** A broadcast or room message of this node is queued once, when it is emitted, and
    appended to the stream; an empty event throws before either. */
    method Emit(channel: string, event: string, data: string, log: seq<Entry>) returns (appended: seq<Entry>)
      modifies `outbound
      ensures event == "" ==> outbound == old(outbound) && appended == log
      ensures event != "" ==>
        && outbound == old(outbound) + [Notice(id, channel, event, data)]
        && appended == log + [Published(Notice(id, channel, event, data))]
    {
      if event == "" {
        return log;
      }
      var notice := Notice(id, channel, event, data);
      outbound := outbound + [notice];
      return log + [Published(notice)];
    }

    /** Polls one batch and queues the foreign messages in it; `ok` is false when an
    unreadable entry threw. The cursor has then moved past that entry and no further. */
    method DrainAdapter(log: seq<Entry>) returns (ok: bool)
      requires cursor <= |log|
      modifies `cursor, `outbound
      ensures cursor == old(cursor) + Consumed(log[old(cursor)..], BATCH)
      ensures outbound == old(outbound) + RelayAll(log[old(cursor)..cursor], id)
      ensures !ok <==> old(cursor) < cursor && log[cursor - 1].Unreadable?
    {
      hide RelayAll, Consumed;
      var messages := log[cursor..if cursor + BATCH <= |log| then cursor + BATCH else |log|];
      ghost var start := cursor;
      NothingYet(log, start, id);
      for i := 0 to |messages|
        invariant cursor == start + i
        invariant Consumed(log[start..], BATCH) == i + Consumed(log[start + i..], BATCH - i)
        invariant outbound == old(outbound) + RelayAll(log[start..start + i], id)
        invariant i > 0 ==> !log[start + i - 1].Unreadable?
      {
        var entry := messages[i];
        OneMore(log, start, i, id);
        cursor := cursor + 1;
        if entry.Unreadable? {
          return false;
        }
        if entry.Published? && entry.notice.node != id && entry.notice.event != ""
          && (entry.notice.channel == "broadcast" || "room:" <= entry.notice.channel)
        {
          outbound := outbound + [entry.notice];
        }
      }
      NoMore(log[cursor..], BATCH - |messages|);
      return true;
    }
  }

  lemma NothingYet(log: seq<Entry>, start: nat, self: string)
    requires start <= |log|
    ensures RelayAll(log[start..start], self) == []
  {
  }

  lemma OneMore(log: seq<Entry>, start: nat, i: nat, self: string)
    requires start + i < |log| && i < BATCH
    ensures RelayAll(log[start..start + i + 1], self) ==
            RelayAll(log[start..start + i], self) + Relay(log[start + i], self)
    ensures Consumed(log[start + i..], BATCH - i) ==
      if log[start + i].Unreadable? then 1 else 1 + Consumed(log[start + i + 1..], BATCH - i - 1)
  {
    RelayOneMore(log[start..start + i], log[start + i], self);
    ConsumeOneMore(log[start + i..], BATCH - i);
    hide RelayAll, Relay, Consumed;
    assert log[start..start + i] + [log[start + i]] == log[start..start + i + 1];
    assert log[start + i..][1..] == log[start + i + 1..];
  }

  lemma {:induction false} RelayOneMore(entries: seq<Entry>, entry: Entry, self: string)
    ensures RelayAll(entries + [entry], self) == RelayAll(entries, self) + Relay(entry, self)
  {
    RelayAllOfOne(entry, self);
    hide RelayAll, Relay;
    RelayAppend(entries, [entry], self);
  }

  lemma {:induction false} ConsumeOneMore(entries: seq<Entry>, limit: nat)
    requires entries != [] && limit > 0
    ensures Consumed(entries, limit) == if entries[0].Unreadable? then 1 else 1 + Consumed(entries[1..], limit - 1)
  {
  }

  lemma {:induction false} RelayAllOfOne(entry: Entry, self: string)
    ensures RelayAll([entry], self) == Relay(entry, self)
  {
    assert [entry][1..] == [] && RelayAll([], self) == [];
  }

  lemma NoMore(entries: seq<Entry>, limit: nat)
    requires entries == [] || limit == 0
    ensures Consumed(entries, limit) == 0
  {
  }
}
