/** The incremental frame parser of the NATS WebSocket adapter.

JSON decoding and the reading of a payload length off a `MSG` line are functions of the
text they are applied to; everything below holds for every such pair of functions. */
module NatsFrames {
  import opened Text

  datatype Json = Malformed | NotAMessage | Decoded(message: Message)
  datatype Message = Message(channel: string, payload: string)

  datatype Codec = Codec(maxBytes: nat, payloadLength: string -> int, json: string -> Json)

  /** One turn of the frame loop. */
  datatype Frame =
    | Wait                                                      // the frame is incomplete
    | Broken                                                    // an exception
    | Frame(messages: seq<Message>, pongs: nat, rest: string)

  /** Every completed turn shortens the buffer. */
  function NextFrame(c: Codec, buffer: string): (f: Frame)
    ensures f.Frame? ==> |f.rest| < |buffer|
  {
    var end := FindCrlf(buffer);
    if end < 0 then Wait
    else
      var line, after := buffer[..end], buffer[end + 2..];
      if line == "PING" then Frame([], 1, after)
      else if !("MSG " <= line) then (if "-ERR" <= line then Broken else Frame([], 0, after))
      else PayloadFrame(c, c.payloadLength(line), after)
  }

  function PayloadFrame(c: Codec, length: int, after: string): (f: Frame)
    ensures f.Frame? ==> |f.rest| < |after|
  {
    if length < 0 || length > c.maxBytes then Broken
    else if |after| < length + 2 then Wait
    else if after[length..length + 2] != CRLF then Broken
    else
      var rest := after[length + 2..];
      match c.json(after[..length])
      case Malformed => Broken
      case NotAMessage => Frame([], 0, rest)
      case Decoded(message) => Frame([message], 0, rest)
  }

  /** Messages and pongs in order, the unconsumed bytes, and whether parsing threw. */
  datatype Parsed = Parsed(messages: seq<Message>, pongs: nat, rest: string, failed: bool)

  function Join(messages: seq<Message>, pongs: nat, p: Parsed): Parsed {
    Parsed(messages + p.messages, pongs + p.pongs, p.rest, p.failed)
  }

  function Parse(c: Codec, buffer: string): Parsed
    decreases |buffer|
  {
    match NextFrame(c, buffer)
    case Wait => Parsed([], 0, buffer, false)
    case Broken => Parsed([], 0, "", true)
    case Frame(messages, pongs, rest) => Join(messages, pongs, Parse(c, rest))
  }

  lemma JoinJoin(a: seq<Message>, m: nat, b: seq<Message>, n: nat, p: Parsed)
    ensures Join(a, m, Join(b, n, p)) == Join(a + b, m + n, p)
    ensures Join([], 0, p) == p
    ensures Join(a, m, Parsed([], 0, p.rest, p.failed)) == Parsed(a, m, p.rest, p.failed)
  {
    assert a + (b + p.messages) == a + b + p.messages;
    assert [] + p.messages == p.messages && a + [] == a;
  }

  lemma JoinFails(a: seq<Message>, m: nat, p: Parsed)
    ensures Join(a, m, p).failed == p.failed
  {
  }

  lemma ParseUnfolds(c: Codec, buffer: string)
    ensures NextFrame(c, buffer).Wait? ==> Parse(c, buffer) == Parsed([], 0, buffer, false)
    ensures NextFrame(c, buffer).Broken? ==> Parse(c, buffer) == Parsed([], 0, "", true)
    ensures NextFrame(c, buffer).Frame? ==>
      var frame := NextFrame(c, buffer);
      Parse(c, buffer) == Join(frame.messages, frame.pongs, Parse(c, frame.rest))
    ensures FindCrlf(buffer) < 0 ==> NextFrame(c, buffer).Wait?
  {
  }

  // Fragmentation

  lemma PayloadFrameExtends(c: Codec, length: int, after: string, more: string)
    ensures PayloadFrame(c, length, after).Frame? ==>
      PayloadFrame(c, length, after + more) ==
        PayloadFrame(c, length, after).(rest := PayloadFrame(c, length, after).rest + more)
    ensures PayloadFrame(c, length, after).Broken? ==> PayloadFrame(c, length, after + more).Broken?
  {
    if 0 <= length && length + 2 <= |after| {
      assert (after + more)[..length] == after[..length];
      assert (after + more)[length..length + 2] == after[length..length + 2];
      assert (after + more)[length + 2..] == after[length + 2..] + more;
    }
  }

  lemma NextFrameExtends(c: Codec, buffer: string, more: string)
    ensures NextFrame(c, buffer).Frame? ==>
      NextFrame(c, buffer + more) == NextFrame(c, buffer).(rest := NextFrame(c, buffer).rest + more)
    ensures NextFrame(c, buffer).Broken? ==> NextFrame(c, buffer + more).Broken?
  {
    hide PayloadFrame;
    var end := FindCrlf(buffer);
    if end >= 0 {
      FindCrlfExtends(buffer, more);
      assert (buffer + more)[..end] == buffer[..end];
      assert (buffer + more)[end + 2..] == buffer[end + 2..] + more;
      PayloadFrameExtends(c, c.payloadLength(buffer[..end]), buffer[end + 2..], more);
    }
  }

  /** Independence from fragmentation: if a buffer parses without error, parsing it with
  more bytes behind it gives the same messages and pongs, followed by the parse of its
  remainder with those bytes; and an error is not undone by more bytes. */
  lemma {:induction false} ParseExtends(c: Codec, buffer: string, more: string)
    ensures
      var p := Parse(c, buffer);
      if p.failed then Parse(c, buffer + more).failed
      else Parse(c, buffer + more) == Join(p.messages, p.pongs, Parse(c, p.rest + more))
    decreases |buffer|
  {
    hide NextFrame;
    NextFrameExtends(c, buffer, more);
    if NextFrame(c, buffer).Frame? {
      ParseExtends(c, NextFrame(c, buffer).rest, more);
    }
  }

  // Polling

  const MAX_READS: nat := 128
  const READ_BYTES: nat := 8192
  const SLACK: nat := 64 * 1024

  function Limit(c: Codec): nat { c.maxBytes + SLACK }

  /** What the reads of one poll can be: a bounded number of non-empty bounded chunks. */
  predicate Readable(chunks: seq<string>) {
    |chunks| <= MAX_READS && forall i :: 0 <= i < |chunks| ==> 0 < |chunks[i]| <= READ_BYTES
  }

  /** One poll: the reads go behind what was carried over, up to the receive limit, and the
  buffer is parsed. */
  function PollOnce(c: Codec, buffer: string, chunks: seq<string>): Parsed {
    var whole := buffer + Flatten(chunks);
    if chunks != [] && |whole| > Limit(c) then Parsed([], 0, "", true) else Parse(c, whole)
  }

  function Polls(c: Codec, buffer: string, polls: seq<seq<string>>): Parsed
    decreases |polls|
  {
    if polls == [] then Parsed([], 0, buffer, false)
    else
      var p := PollOnce(c, buffer, polls[0]);
      if p.failed then p else Join(p.messages, p.pongs, Polls(c, p.rest, polls[1..]))
  }

  function Stream(polls: seq<seq<string>>): string {
    if polls == [] then "" else Flatten(polls[0]) + Stream(polls[1..])
  }

  /** No poll takes the bytes left over by the stream before it, together with its own reads,
  past the receive limit. */
  predicate Fits(c: Codec, seen: string, polls: seq<seq<string>>)
    decreases |polls|
  {
    polls != [] ==>
      && (polls[0] != [] ==> |Parse(c, seen).rest + Flatten(polls[0])| <= Limit(c))
      && Fits(c, seen + Flatten(polls[0]), polls[1..])
  }

  lemma {:induction false} ParseIsComplete(c: Codec, buffer: string)
    ensures !Parse(c, buffer).failed ==> NextFrame(c, Parse(c, buffer).rest).Wait?
    decreases |buffer|
  {
    hide NextFrame;
    if NextFrame(c, buffer).Frame? { ParseIsComplete(c, NextFrame(c, buffer).rest); }
  }

  /** However a stream is cut into reads and polls, the polls return its messages in order, once
  each, and answer each PING once, if and only if it holds no error and every poll stays within
  the receive limit; otherwise one of them throws. */
  lemma {:induction false} EveryChunkingIsTheSame(c: Codec, seen: string, polls: seq<seq<string>>)
    requires !Parse(c, seen).failed
    ensures Polls(c, Parse(c, seen).rest, polls).failed <==>
            Parse(c, seen + Stream(polls)).failed || !Fits(c, seen, polls)
    ensures !Polls(c, Parse(c, seen).rest, polls).failed ==>
              Polls(c, Parse(c, seen).rest, polls) == Parse(c, Parse(c, seen).rest + Stream(polls))
    decreases |polls|
  {
    var carried := Parse(c, seen).rest;
    if polls == [] {
      ParseIsComplete(c, seen);
      assert carried + Stream(polls) == carried && seen + Stream(polls) == seen;
    } else {
      hide Parse;
      var chunks, later := Flatten(polls[0]), Stream(polls[1..]);
      Associate(seen, chunks, later);
      Associate(carried, chunks, later);
      ParseExtends(c, seen, chunks);
      ParseExtends(c, seen + chunks, later);
      ParseExtends(c, carried + chunks, later);
      if !Parse(c, seen + chunks).failed { EveryChunkingIsTheSame(c, seen + chunks, polls[1..]); }
    }
  }

  // What a server sends

  datatype Sent =
    | Ping
    | Control(line: string)                     // INFO, +OK, PONG, ...
    | Deliver(line: string, payload: string)

  function Wire(frame: Sent): (wire: string)
    ensures |wire| >= 2
  {
    match frame
    case Ping => "PING" + CRLF
    case Control(line) => line + CRLF
    case Deliver(line, payload) => line + CRLF + (payload + CRLF)
  }

  predicate ValidFrame(c: Codec, frame: Sent) {
    match frame
    case Ping => true
    case Control(line) => CrlfFree(line) && line != "PING" && !("MSG " <= line) && !("-ERR" <= line)
    case Deliver(line, payload) =>
      && CrlfFree(line) && "MSG " <= line
      && c.payloadLength(line) == |payload| <= c.maxBytes && !c.json(payload).Malformed?
  }

  function MessagesOf(c: Codec, frame: Sent): seq<Message> {
    if frame.Deliver? && c.json(frame.payload).Decoded? then [c.json(frame.payload).message] else []
  }

  function WireAll(frames: seq<Sent>): string {
    if frames == [] then "" else Wire(frames[0]) + WireAll(frames[1..])
  }

  function AllMessages(c: Codec, frames: seq<Sent>): seq<Message> {
    if frames == [] then [] else MessagesOf(c, frames[0]) + AllMessages(c, frames[1..])
  }

  function Pings(frames: seq<Sent>): nat {
    if frames == [] then 0 else (if frames[0].Ping? then 1 else 0) + Pings(frames[1..])
  }

  lemma {:induction false} PayloadOfWire(c: Codec, frame: Sent, rest: string)
    requires ValidFrame(c, frame) && frame.Deliver?
    ensures PayloadFrame(c, |frame.payload|, frame.payload + CRLF + rest) == Frame(MessagesOf(c, frame), 0, rest)
  {
    var n, after := |frame.payload|, frame.payload + CRLF + rest;
    assert after[..n] == frame.payload && after[n..n + 2] == CRLF && after[n + 2..] == rest;
  }

  lemma {:induction false} NextFrameOfWire(c: Codec, frame: Sent, rest: string)
    requires ValidFrame(c, frame)
    ensures NextFrame(c, Wire(frame) + rest) == Frame(MessagesOf(c, frame), if frame.Ping? then 1 else 0, rest)
  {
    hide PayloadFrame;
    var line := match frame case Ping => "PING" case Control(l) => l case Deliver(l, _) => l;
    var after := if frame.Deliver? then frame.payload + CRLF + rest else rest;
    var s := Wire(frame) + rest;
    assert s == line + CRLF + after;
    FindCrlfAfterLine(line, after);
    assert s[..|line|] == line && s[|line| + 2..] == after;
    if frame.Deliver? { PayloadOfWire(c, frame, rest); }
  }

  lemma {:induction false} ParseOfWire(c: Codec, frames: seq<Sent>)
    requires forall f :: f in frames ==> ValidFrame(c, f)
    ensures Parse(c, WireAll(frames)) == Parsed(AllMessages(c, frames), Pings(frames), "", false)
  {
    hide NextFrame, Wire;
    if frames == [] {
      assert NextFrame(c, "") == Wait by { EmptyWaits(c); }
    } else {
      NextFrameOfWire(c, frames[0], WireAll(frames[1..]));
      ParseOfWire(c, frames[1..]);
    }
  }

  lemma EmptyWaits(c: Codec)
    ensures NextFrame(c, "") == Wait
  {
  }

  /** What one frame adds to the parse of what follows it: a PING is answered, a message is
  handed on, and any other line is passed over. */
  lemma {:induction false} FrameIsRead(c: Codec, line: string, payload: string, rest: string)
    requires CrlfFree(line)
    ensures
      var p := Parse(c, rest);
      && Parse(c, "PING\r\n" + rest) == Parsed(p.messages, p.pongs + 1, p.rest, p.failed)
      && (line != "PING" && !("MSG " <= line) && !("-ERR" <= line) ==> Parse(c, line + "\r\n" + rest) == p)
      && ("MSG " <= line && c.payloadLength(line) == |payload| <= c.maxBytes && c.json(payload).Decoded? ==>
            Parse(c, line + "\r\n" + (payload + "\r\n") + rest) ==
              Parsed([c.json(payload).message] + p.messages, p.pongs, p.rest, p.failed))
  {
    hide NextFrame;
    assert Wire(Ping) == "PING\r\n";
    NextFrameOfWire(c, Ping, rest);
    if ValidFrame(c, Control(line)) { NextFrameOfWire(c, Control(line), rest); }
    if ValidFrame(c, Deliver(line, payload)) { NextFrameOfWire(c, Deliver(line, payload), rest); }
  }

  // What makes a stream fail

  /** What the adapter does not accept: an error line, a length that is negative or too large, a
  payload without its line end, or one that is not JSON. */
  datatype Fault =
    | ErrorLine(line: string)
    | BadLength(line: string)
    | BadEnd(line: string, payload: string, end: string)
    | BadJson(line: string, payload: string)

  function FaultWire(f: Fault): string {
    match f
    case ErrorLine(line) => line + CRLF
    case BadLength(line) => line + CRLF
    case BadEnd(line, payload, end) => line + CRLF + (payload + end)
    case BadJson(line, payload) => line + CRLF + (payload + CRLF)
  }

  predicate IsFault(c: Codec, f: Fault) {
    match f
    case ErrorLine(line) => CrlfFree(line) && "-ERR" <= line
    case BadLength(line) =>
      CrlfFree(line) && "MSG " <= line && (c.payloadLength(line) < 0 || c.payloadLength(line) > c.maxBytes)
    case BadEnd(line, payload, end) =>
      && CrlfFree(line) && "MSG " <= line && c.payloadLength(line) == |payload| <= c.maxBytes
      && |end| == 2 && end != "\r\n"
    case BadJson(line, payload) =>
      && CrlfFree(line) && "MSG " <= line && c.payloadLength(line) == |payload| <= c.maxBytes
      && c.json(payload).Malformed?
  }

  lemma {:induction false} FaultBreaks(c: Codec, f: Fault, rest: string)
    requires IsFault(c, f)
    ensures NextFrame(c, FaultWire(f) + rest) == Broken
  {
    hide PayloadFrame, NextFrame;
    var after := match f
      case ErrorLine(_) => rest
      case BadLength(_) => rest
      case BadEnd(_, payload, end) => payload + end + rest
      case BadJson(_, payload) => payload + CRLF + rest;
    assert FaultWire(f) + rest == f.line + CRLF + after;
    NextFrameOfLine(c, f.line, after);
    if !f.ErrorLine? { PayloadBreaks(c, f, after, rest); }
  }

  lemma {:induction false} NextFrameOfLine(c: Codec, line: string, after: string)
    requires CrlfFree(line)
    ensures "MSG " <= line ==> NextFrame(c, line + CRLF + after) == PayloadFrame(c, c.payloadLength(line), after)
    ensures "-ERR" <= line ==> NextFrame(c, line + CRLF + after) == Broken
  {
    hide PayloadFrame;
    var s := line + CRLF + after;
    FindCrlfAfterLine(line, after);
    assert s[..|line|] == line && s[|line| + 2..] == after;
  }

  lemma {:induction false} PayloadBreaks(c: Codec, f: Fault, after: string, rest: string)
    requires IsFault(c, f) && !f.ErrorLine?
    requires f.BadEnd? ==> after == f.payload + f.end + rest
    requires f.BadJson? ==> after == f.payload + CRLF + rest
    ensures PayloadFrame(c, c.payloadLength(f.line), after) == Broken
  {
    if !f.BadLength? {
      var n := |f.payload|;
      assert after[..n] == f.payload && after[n..n + 2] == if f.BadEnd? then f.end else CRLF;
    }
  }

  /** A frame that is taken off the buffer is a valid one, and what breaks the loop is a fault. */
  lemma {:induction false} NextFrameIsSound(c: Codec, buffer: string)
    ensures NextFrame(c, buffer).Frame? ==>
              exists f :: ValidFrame(c, f) && buffer == Wire(f) + NextFrame(c, buffer).rest
    ensures NextFrame(c, buffer).Broken? ==> exists f, rest :: IsFault(c, f) && buffer == FaultWire(f) + rest
  {
    var end := FindCrlf(buffer);
    if end >= 0 {
      var line, after := buffer[..end], buffer[end + 2..];
      assert buffer == line + CRLF + after;
      assert CrlfFree(line) by {
        forall i | 0 <= i < |line| ensures !CrlfAt(line, i) { assert !CrlfAt(buffer, i); }
      }
      if line == "PING" {
        assert ValidFrame(c, Ping) && buffer == Wire(Ping) + after;
      } else if "MSG " <= line {
        PayloadIsSound(c, line, after);
      } else if "-ERR" <= line {
        assert IsFault(c, ErrorLine(line)) && buffer == FaultWire(ErrorLine(line)) + after;
      } else {
        assert ValidFrame(c, Control(line)) && buffer == Wire(Control(line)) + after;
      }
    }
  }

  lemma {:induction false} PayloadIsSound(c: Codec, line: string, after: string)
    requires CrlfFree(line) && "MSG " <= line
    ensures
      var frame := PayloadFrame(c, c.payloadLength(line), after);
      frame.Frame? ==> exists f :: ValidFrame(c, f) && line + CRLF + after == Wire(f) + frame.rest
    ensures PayloadFrame(c, c.payloadLength(line), after).Broken? ==>
              exists f, rest :: IsFault(c, f) && line + CRLF + after == FaultWire(f) + rest
  {
    var n := c.payloadLength(line);
    if n < 0 || n > c.maxBytes {
      assert IsFault(c, BadLength(line)) && line + CRLF + after == FaultWire(BadLength(line)) + after;
    } else if n + 2 <= |after| {
      var payload, end, rest := after[..n], after[n..n + 2], after[n + 2..];
      assert after == payload + end + rest;
      if end != CRLF {
        var f := BadEnd(line, payload, end);
        assert IsFault(c, f) && line + CRLF + after == FaultWire(f) + rest;
      } else if c.json(payload).Malformed? {
        var f := BadJson(line, payload);
        assert IsFault(c, f) && line + CRLF + after == FaultWire(f) + rest;
      } else {
        var f, frame := Deliver(line, payload), PayloadFrame(c, n, after);
        assert frame.Frame? ==> frame.rest == rest;
        assert ValidFrame(c, f) && line + CRLF + after == Wire(f) + rest;
      }
    }
  }

  /** A buffer is some valid frames and then a fault. */
  ghost predicate Faulty(c: Codec, buffer: string, frames: seq<Sent>, f: Fault, rest: string) {
    && (forall g :: g in frames ==> ValidFrame(c, g)) && IsFault(c, f)
    && buffer == WireAll(frames) + (FaultWire(f) + rest)
  }

  lemma {:induction false} FaultyFails(c: Codec, buffer: string, frames: seq<Sent>, f: Fault, rest: string)
    requires Faulty(c, buffer, frames, f, rest)
    ensures Parse(c, buffer).failed
    decreases |frames|
  {
    hide NextFrame, Wire, FaultWire, IsFault, ValidFrame;
    if frames == [] {
      assert buffer == FaultWire(f) + rest;
      FaultBreaks(c, f, rest);
    } else {
      var behind := WireAll(frames[1..]) + (FaultWire(f) + rest);
      Associate(Wire(frames[0]), WireAll(frames[1..]), FaultWire(f) + rest);
      NextFrameOfWire(c, frames[0], behind);
      FaultyFails(c, behind, frames[1..], f, rest);
    }
  }

  lemma {:induction false} FailedIsFaulty(c: Codec, buffer: string)
    requires Parse(c, buffer).failed
    ensures exists frames, f, rest :: Faulty(c, buffer, frames, f, rest)
    decreases |buffer|
  {
    hide NextFrame, Wire, FaultWire, IsFault, ValidFrame;
    NextFrameIsSound(c, buffer);
    var next := NextFrame(c, buffer);
    if next.Broken? {
      var f, rest :| IsFault(c, f) && buffer == FaultWire(f) + rest;
      assert WireAll([]) + (FaultWire(f) + rest) == buffer;
      assert Faulty(c, buffer, [], f, rest);
    } else {
      FailedIsFaulty(c, next.rest);
      var g :| ValidFrame(c, g) && buffer == Wire(g) + next.rest;
      var frames, f, rest :| Faulty(c, next.rest, frames, f, rest);
      var longer := [g] + frames;
      assert longer[0] == g && longer[1..] == frames;
      Associate(Wire(g), WireAll(frames), FaultWire(f) + rest);
      assert Faulty(c, buffer, longer, f, rest);
    }
  }

  /** Parsing throws if and only if the buffer is valid frames followed by a fault. */
  lemma FailsExactlyAtFaults(c: Codec, buffer: string)
    ensures Parse(c, buffer).failed <==> exists frames, f, rest :: Faulty(c, buffer, frames, f, rest)
  {
    if Parse(c, buffer).failed {
      FailedIsFaulty(c, buffer);
    }
    hide Parse, Faulty;
    if frames, f, rest :| Faulty(c, buffer, frames, f, rest) { FaultyFails(c, buffer, frames, f, rest); }
  }

  /** End to end: every valid sequence of frames, cut into reads and polls in any way, yields
  exactly its messages in order and one PONG per PING if and only if no poll passes the
  receive limit. */
  lemma Delivery(c: Codec, frames: seq<Sent>, polls: seq<seq<string>>)
    requires forall f :: f in frames ==> ValidFrame(c, f)
    requires Stream(polls) == WireAll(frames)
    ensures Polls(c, "", polls) == Parsed(AllMessages(c, frames), Pings(frames), "", false) <==> Fits(c, "", polls)
    ensures Polls(c, "", polls).failed <==> !Fits(c, "", polls)
  {
    EmptyWaits(c);
    hide NextFrame, Wire, Fits, Polls;
    assert Parse(c, "") == Parsed([], 0, "", false);
    assert "" + Stream(polls) == WireAll(frames);
    ParseOfWire(c, frames);
    EveryChunkingIsTheSame(c, "", polls);
  }

  /** Where a beginning of a valid stream stops: behind `i` frames and some bytes of the next,
  which are what is left over. */
  ghost predicate StopsIn(c: Codec, frames: seq<Sent>, prefix: string, i: nat) {
    && i <= |frames|
    && |prefix| == |WireAll(frames[..i])| + |Parse(c, prefix).rest|
    && |Parse(c, prefix).rest| < if i < |frames| then |Wire(frames[i])| else 1
  }

  /** Less than one frame is all left over. */
  lemma StopsInFirst(c: Codec, frame: Sent, later: string, prefix: string)
    requires ValidFrame(c, frame) && prefix <= Wire(frame) + later && |prefix| < |Wire(frame)|
    ensures Parse(c, prefix).rest == prefix
  {
    hide NextFrame, Wire, ValidFrame, MessagesOf;
    var more := (Wire(frame) + later)[|prefix|..];
    assert prefix + more == Wire(frame) + later;
    NextFrameOfWire(c, frame, later);
    NextFrameExtends(c, prefix, more);
  }

  /** A whole frame at the front leaves nothing over. */
  lemma StopsBehindFirst(c: Codec, frame: Sent, later: string, prefix: string) returns (behind: string)
    requires ValidFrame(c, frame) && prefix <= Wire(frame) + later && |prefix| >= |Wire(frame)|
    ensures behind <= later && |prefix| == |Wire(frame)| + |behind|
    ensures Parse(c, prefix).rest == Parse(c, behind).rest
  {
    hide NextFrame, Wire, ValidFrame, MessagesOf;
    var n := |Wire(frame)|;
    behind := prefix[n..];
    assert prefix[..n] == (Wire(frame) + later)[..n] == Wire(frame);
    assert prefix == Wire(frame) + behind;
    assert later == (Wire(frame) + later)[n..];
    NextFrameOfWire(c, frame, behind);
  }

  lemma {:induction false} WireAllStarts(frames: seq<Sent>, k: nat)
    requires k < |frames|
    ensures WireAll(frames[..k + 1]) == Wire(frames[0]) + WireAll(frames[1..][..k])
  {
    hide Wire;
    assert frames[..k + 1][0] == frames[0] && frames[..k + 1][1..] == frames[1..][..k];
  }

  lemma {:induction false} LeftoverIsPartOfAFrame(c: Codec, frames: seq<Sent>, prefix: string) returns (i: nat)
    requires forall f :: f in frames ==> ValidFrame(c, f)
    requires prefix <= WireAll(frames)
    ensures StopsIn(c, frames, prefix, i)
  {
    i := 0;
    if frames == [] {
      EmptyWaits(c);
    } else {
      assert WireAll(frames) == Wire(frames[0]) + WireAll(frames[1..]);
      assert WireAll(frames[..0]) == "" by { assert frames[..0] == []; }
      hide Parse, Wire, WireAll, ValidFrame;
      if |prefix| < |Wire(frames[0])| {
        StopsInFirst(c, frames[0], WireAll(frames[1..]), prefix);
      } else {
        var behind := StopsBehindFirst(c, frames[0], WireAll(frames[1..]), prefix);
        var k := LeftoverIsPartOfAFrame(c, frames[1..], behind);
        i := k + 1;
        WireAllStarts(frames, k);
      }
    }
  }

  lemma {:induction false} ReadableBytes(chunks: seq<string>)
    requires forall i :: 0 <= i < |chunks| ==> |chunks[i]| <= READ_BYTES
    ensures |Flatten(chunks)| <= |chunks| * READ_BYTES
  {
    if chunks != [] { ReadableBytes(chunks[1..]); }
  }

  const POLL_BYTES: nat := 1024 * 1024      // MAX_READS * READ_BYTES

  function Min(a: int, b: int): int { if a <= b then a else b }

  /** The most that can be in the buffer when the poll that completes frame `i` is done. */
  function Burst(frames: seq<Sent>, i: nat): int
    requires i < |frames|
  {
    |Wire(frames[i])| - 1 + Min(POLL_BYTES, 1 + |WireAll(frames[i + 1..])|)
  }

  predicate Moderate(c: Codec, frames: seq<Sent>) {
    forall i :: 0 <= i < |frames| ==> Burst(frames, i) <= Limit(c)
  }

  lemma {:induction false} WireAllSplits(frames: seq<Sent>, i: nat)
    requires i < |frames|
    ensures WireAll(frames) == WireAll(frames[..i]) + (Wire(frames[i]) + WireAll(frames[i + 1..]))
  {
    hide Wire;
    if i == 0 {
      assert frames[..0] == [];
    } else {
      WireAllSplits(frames[1..], i - 1);
      assert frames[..i][0] == frames[0] && frames[..i][1..] == frames[1..][..i - 1];
      assert frames[1..][i..] == frames[i + 1..];
      Associate(Wire(frames[0]), WireAll(frames[1..][..i - 1]), Wire(frames[i]) + WireAll(frames[i + 1..]));
    }
  }

  /** One poll of a moderate stream stays within the limit. */
  lemma PollStaysWithin(c: Codec, frames: seq<Sent>, seen: string, chunks: seq<string>)
    requires (forall f :: f in frames ==> ValidFrame(c, f)) && Moderate(c, frames)
    requires Readable(chunks) && seen + Flatten(chunks) <= WireAll(frames)
    ensures |Parse(c, seen).rest + Flatten(chunks)| <= Limit(c)
  {
    hide Parse, Wire, WireAll;
    assert seen <= WireAll(frames) by {
      assert (seen + Flatten(chunks))[..|seen|] == seen;
    }
    var i := LeftoverIsPartOfAFrame(c, frames, seen);
    ReadableBytes(chunks);
    if i < |frames| {
      WireAllSplits(frames, i);
      assert Burst(frames, i) <= Limit(c);
    } else {
      assert frames[..i] == frames;
    }
  }

  lemma {:induction false} ModerateStreamsFit(c: Codec, frames: seq<Sent>, seen: string, polls: seq<seq<string>>)
    requires (forall f :: f in frames ==> ValidFrame(c, f)) && Moderate(c, frames)
    requires forall i :: 0 <= i < |polls| ==> Readable(polls[i])
    requires seen + Stream(polls) == WireAll(frames)
    ensures Fits(c, seen, polls)
    decreases |polls|
  {
    hide Parse, Wire, WireAll, Moderate;
    if polls != [] {
      assert Readable(polls[0]);
      Associate(seen, Flatten(polls[0]), Stream(polls[1..]));
      PollStaysWithin(c, frames, seen, polls[0]);
      ModerateStreamsFit(c, frames, seen + Flatten(polls[0]), polls[1..]);
    }
  }

  // A stream that is not moderate can be lost

  /** A text in reads of full size. */
  function Pieces(text: string): seq<string>
    decreases |text|
  {
    if |text| == 0 then []
    else if |text| <= READ_BYTES then [text]
    else [text[..READ_BYTES]] + Pieces(text[READ_BYTES..])
  }

  lemma {:induction false} PiecesAreReads(text: string)
    ensures Flatten(Pieces(text)) == text
    ensures forall i :: 0 <= i < |Pieces(text)| ==> 0 < |Pieces(text)[i]| <= READ_BYTES
    ensures |Pieces(text)| * READ_BYTES < |text| + READ_BYTES
    ensures text != "" ==> Pieces(text) != []
    decreases |text|
  {
    if |text| > READ_BYTES {
      PiecesAreReads(text[READ_BYTES..]);
    } else if text != "" {
      assert Pieces(text)[1..] == [];
    }
  }

  /** A text polled one byte at a time. */
  function Trickle(text: string): seq<seq<string>> {
    if text == "" then [] else [[text[..1]]] + Trickle(text[1..])
  }

  lemma {:induction false} TrickleUnfolds(text: string, last: seq<seq<string>>)
    ensures text == "" ==> Trickle(text) + last == last
    ensures text != "" ==>
              && Trickle(text) + last == [[text[..1]]] + (Trickle(text[1..]) + last)
              && Flatten([text[..1]]) == text[..1]
              && text == text[..1] + text[1..]
  {
    if text != "" {
      var first, later := [[text[..1]]], Trickle(text[1..]);
      assert Trickle(text) == first + later;
      assert Flatten([text[..1]]) == text[..1] by {
        assert [text[..1]][1..] == [] && text[..1] + "" == text[..1];
      }
      hide Trickle, Flatten;
      Associate(first, later, last);
    }
  }

  lemma {:induction false} TrickleStreams(text: string, last: seq<seq<string>>)
    ensures Stream(Trickle(text) + last) == text + Stream(last)
  {
    TrickleUnfolds(text, last);
    var polls := Trickle(text) + last;
    hide Trickle, Flatten;
    if text == "" {
      assert text + Stream(last) == Stream(last);
    } else {
      TrickleStreams(text[1..], last);
      assert polls[0] == [text[..1]] && polls[1..] == Trickle(text[1..]) + last;
      Associate(text[..1], text[1..], Stream(last));
    }
  }

  predicate AllReadable(polls: seq<seq<string>>) { forall i :: 0 <= i < |polls| ==> Readable(polls[i]) }

  lemma {:induction false} TrickleIsReadable(text: string, last: seq<seq<string>>)
    requires AllReadable(last)
    ensures AllReadable(Trickle(text) + last)
  {
    TrickleUnfolds(text, last);
    if text != "" {
      TrickleIsReadable(text[1..], last);
      assert Readable([text[..1]]);
    }
  }

  lemma {:induction false} MiddlePollPasses(c: Codec, seen: string, text: string, last: seq<seq<string>>)
    requires last != [] && last[0] != [] && |Parse(c, seen + text).rest + Flatten(last[0])| > Limit(c)
    ensures !Fits(c, seen, Trickle(text) + last)
    decreases |text|
  {
    hide Parse;
    var polls := Trickle(text) + last;
    TrickleUnfolds(text, last);
    if text == "" {
      assert polls[0] == last[0] && seen + text == seen;
    } else {
      assert polls[0] == [text[..1]] && polls[1..] == Trickle(text[1..]) + last;
      Associate(seen, text[..1], text[1..]);
      MiddlePollPasses(c, seen + text[..1], text[1..], last);
    }
  }

  lemma PartialFrameWaits(c: Codec, frame: Sent, n: nat)
    requires ValidFrame(c, frame) && n < |Wire(frame)|
    ensures Parse(c, Wire(frame)[..n]) == Parsed([], 0, Wire(frame)[..n], false)
  {
    hide Wire, NextFrame, ValidFrame, MessagesOf;
    var wire := Wire(frame);
    NextFrameOfWire(c, frame, "");
    assert wire[..n] + wire[n..] == wire == wire + "";
    NextFrameExtends(c, wire[..n], wire[n..]);
  }

  /** Behind whole frames and all but the last byte of another, those bytes are left over. */
  lemma LeftoverBeforeLastByte(c: Codec, frames: seq<Sent>, i: nat)
    requires (forall f :: f in frames ==> ValidFrame(c, f)) && i < |frames|
    ensures var part := Wire(frames[i])[..|Wire(frames[i])| - 1];
            Parse(c, WireAll(frames[..i]) + part).rest == part
  {
    hide Parse, Wire, WireAll;
    var part := Wire(frames[i])[..|Wire(frames[i])| - 1];
    ParseOfWire(c, frames[..i]);
    ParseExtends(c, WireAll(frames[..i]), part);
    assert "" + part == part;
    PartialFrameWaits(c, frames[i], |part|);
  }

  /** The polls that lose frame `i`: everything up to its last byte in small polls, then as much
  as one poll can take, then the rest. */
  lemma BurstIsLost(c: Codec, frames: seq<Sent>, i: nat) returns (polls: seq<seq<string>>)
    requires (forall f :: f in frames ==> ValidFrame(c, f)) && i < |frames| && Burst(frames, i) > Limit(c)
    ensures AllReadable(polls) && Stream(polls) == WireAll(frames) && !Fits(c, "", polls)
  {
    hide Parse, Wire, WireAll, Fits, Flatten;
    WireAllSplits(frames, i);
    var whole, wire := WireAll(frames), Wire(frames[i]);
    var n := |WireAll(frames[..i])| + |wire| - 1;
    var m := n + Min(POLL_BYTES, 1 + |WireAll(frames[i + 1..])|);
    var text, middle, rest := whole[..n], whole[n..m], whole[m..];
    assert whole == text + (middle + rest);
    assert text == WireAll(frames[..i]) + wire[..|wire| - 1];
    PiecesAreReads(middle);
    var last := [Pieces(middle)] + (Trickle(rest) + []);
    assert Readable(Pieces(middle)) by { assert |Pieces(middle)| * READ_BYTES < POLL_BYTES + READ_BYTES; }
    NothingStreams();
    TrickleStreams(rest, []);
    TrickleIsReadable(rest, []);
    assert AllReadable(last);
    assert last[0] == Pieces(middle) && last[1..] == Trickle(rest) + [];
    assert rest + "" == rest;
    polls := Trickle(text) + last;
    TrickleStreams(text, last);
    TrickleIsReadable(text, last);
    LeftoverBeforeLastByte(c, frames, i);
    assert "" + text == text;
    MiddlePollPasses(c, "", text, last);
  }

  lemma NothingStreams()
    ensures Stream([]) == ""
  {
  }

  /** Valid frames are delivered whatever way they are cut into reads and polls if and only if
  no frame, with what one poll can bring along behind it, passes the receive limit. */
  lemma AlwaysDeliveredExactlyWhen(c: Codec, frames: seq<Sent>)
    requires forall f :: f in frames ==> ValidFrame(c, f)
    ensures (forall polls | AllReadable(polls) && Stream(polls) == WireAll(frames) :: !Polls(c, "", polls).failed)
            <==> Moderate(c, frames)
  {
    hide Parse, Wire, WireAll, Fits, Polls, Burst, Stream;
    if Moderate(c, frames) {
      forall polls | AllReadable(polls) && Stream(polls) == WireAll(frames) ensures !Polls(c, "", polls).failed {
        assert "" + Stream(polls) == WireAll(frames);
        ModerateStreamsFit(c, frames, "", polls);
        Delivery(c, frames, polls);
      }
    } else {
      var i :| 0 <= i < |frames| && Burst(frames, i) > Limit(c);
      var polls := BurstIsLost(c, frames, i);
      Delivery(c, frames, polls);
    }
  }

  /** In particular, a message of the maximum size can be lost as soon as 64 KiB follow it, and
  frames that leave room for a full poll never are. */
  lemma LimitsOnFrames(c: Codec, frames: seq<Sent>)
    requires forall f :: f in frames ==> ValidFrame(c, f)
    ensures (exists i :: 0 <= i < |frames| && frames[i].Deliver? && |frames[i].payload| == c.maxBytes
                         && |WireAll(frames[i + 1..])| >= SLACK) ==> !Moderate(c, frames)
    ensures (forall i :: 0 <= i < |frames| ==> |Wire(frames[i])| + POLL_BYTES <= Limit(c) + 1) ==> Moderate(c, frames)
  {
    hide WireAll;
    if i :| 0 <= i < |frames| && frames[i].Deliver? && |frames[i].payload| == c.maxBytes
            && |WireAll(frames[i + 1..])| >= SLACK
    {
      assert |Wire(frames[i])| == |frames[i].line| + |frames[i].payload| + 4;
      assert Burst(frames, i) > Limit(c);
    }
  }

  // The adapter

  /** The chunks one poll takes. */
  function Taken(available: seq<string>): seq<string> {
    if |available| <= MAX_READS then available else available[..MAX_READS]
  }

  lemma FlattenGrows(available: seq<string>, read: nat)
    requires read <= |Taken(available)|
    ensures |Flatten(available[..read])| <= |Flatten(Taken(available))|
  {
    var taken := Taken(available);
    assert taken == available[..read] + taken[read..];
    FlattenAppend(available[..read], taken[read..]);
  }

  class NatsAdapter {
    const codec: Codec
    var buffer: string
    var pongs: nat               // PONG frames written

    constructor (codec: Codec)
      ensures this.codec == codec && buffer == "" && pongs == 0
    {
      this.codec, buffer, pongs := codec, "", 0;
    }

    /** Takes at most 128 of the chunks that can be read without waiting. `false` is the
    receive-limit exception, or that of a closed connection with nothing left to read. */
    method ReadAvailable(available: seq<string>, eof: bool) returns (ok: bool, left: seq<string>)
      requires forall i :: 0 <= i < |available| ==> available[i] != ""
      modifies `buffer
      ensures ok <==>
              var chunks := Taken(available);
              (chunks == [] && !eof) || (chunks != [] && |old(buffer) + Flatten(chunks)| <= Limit(codec))
      ensures ok ==> buffer == old(buffer) + Flatten(Taken(available)) && left == available[|Taken(available)|..]
    {
      var read := 0;
      assert buffer == old(buffer) + Flatten(available[..0]);
      while read < MAX_READS && read < |available|
        invariant 0 <= read <= MAX_READS && read <= |available|
        invariant buffer == old(buffer) + Flatten(available[..read])
        invariant read > 0 ==> |buffer| <= Limit(codec)
      {
        FlattenAppend(available[..read], [available[read]]);
        assert Flatten([available[read]]) == available[read];
        assert available[..read] + [available[read]] == available[..read + 1];
        buffer := buffer + available[read];
        read := read + 1;
        if |buffer| > Limit(codec) {
          FlattenGrows(available, read);
          return false, available[read..];
        }
      }
      assert available[..read] == Taken(available);
      ok, left := read > 0 || !eof, available[read..];
    }

    /** One attempt of a poll. `None` is an exception, after which the adapter disconnects. */
    method Poll(available: seq<string>, eof: bool) returns (messages: Option<seq<Message>>, left: seq<string>)
      requires forall i :: 0 <= i < |available| ==> available[i] != ""
      modifies `buffer, `pongs
      ensures messages.None? <==>
              PollOnce(codec, old(buffer), Taken(available)).failed || (available == [] && eof)
      ensures messages.None? ==> buffer == ""
      ensures messages.Some? ==> left == available[|Taken(available)|..] && pongs >= old(pongs)
      ensures messages.Some? ==>
                PollOnce(codec, old(buffer), Taken(available)) ==
                Parsed(messages.value, pongs - old(pongs), buffer, false)
    {
      hide Parse;
      var ok;
      ok, left := ReadAvailable(available, eof);
      messages := None;
      if ok {
        messages := ParseFrames();
      }
      if messages.None? {
        buffer := "";
      }
    }

    /** The payload of a `MSG` line; advances the buffer past a complete frame. */
    method TakePayload(line: string, after: string) returns (frame: Frame)
      modifies `buffer
      ensures frame == PayloadFrame(codec, codec.payloadLength(line), after)
      ensures frame.Frame? ==> buffer == frame.rest
      ensures frame.Wait? ==> buffer == old(buffer)
    {
      var length := codec.payloadLength(line);
      if length < 0 || length > codec.maxBytes {
        return Broken;
      }
      if |after| < length + 2 {
        return Wait;
      }
      if after[length..length + 2] != CRLF {
        return Broken;
      }
      buffer := after[length + 2..];
      match codec.json(after[..length])
      case Malformed => return Broken;
      case NotAMessage => return Frame([], 0, buffer);
      case Decoded(message) => return Frame([message], 0, buffer);
    }

    method TakeFrame() returns (frame: Frame)
      requires FindCrlf(buffer) >= 0
      modifies `buffer, `pongs
      ensures frame == NextFrame(codec, old(buffer))
      ensures frame.Frame? ==> buffer == frame.rest && pongs == old(pongs) + frame.pongs
      ensures frame.Wait? ==> buffer == old(buffer) && pongs == old(pongs)
    {
      var end := FindCrlf(buffer);
      var line, after := buffer[..end], buffer[end + 2..];
      if line == "PING" {
        buffer, pongs := after, pongs + 1;
        return Frame([], 1, buffer);
      }
      if !("MSG " <= line) {
        buffer := after;
        return if "-ERR" <= line then Broken else Frame([], 0, buffer);
      }
      frame := TakePayload(line, after);
    }

    /** `None` is an exception, after which the connection and the buffer are dropped. */
    method ParseFrames() returns (messages: Option<seq<Message>>)
      modifies `buffer, `pongs
      ensures messages.None? <==> Parse(codec, old(buffer)).failed
      ensures messages.Some? ==> pongs >= old(pongs)
      ensures messages.Some? ==> Parse(codec, old(buffer)) == Parsed(messages.value, pongs - old(pongs), buffer, false)
    {
      hide NextFrame, Parse, Join;
      var found: seq<Message> := [];
      JoinJoin([], 0, [], 0, Parse(codec, buffer));
      while FindCrlf(buffer) >= 0
        invariant pongs >= old(pongs)
        invariant Parse(codec, old(buffer)) == Join(found, pongs - old(pongs), Parse(codec, buffer))
        decreases |buffer|
      {
        ParseUnfolds(codec, buffer);
        ghost var before := pongs - old(pongs);
        var frame := TakeFrame();
        JoinFails(found, before, Parsed([], 0, "", true));
        match frame {
          case Wait => break;
          case Broken => return None;
          case Frame(messages, n, rest) =>
            JoinJoin(found, before, messages, n, Parse(codec, rest));
            found := found + messages;
        }
      }
      ParseUnfolds(codec, buffer);
      JoinJoin(found, pongs - old(pongs), [], 0, Parsed([], 0, buffer, false));
      return Some(found);
    }
  }
}
