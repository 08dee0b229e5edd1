/** The Fiber-cooperative Redis client over an unreliable connection.

The network and the server do as `dials` and `answers` say: a connection attempt or a write may fail,
any prefix of the server's replies may arrive, cut into any non-empty chunks, and the
connection may then close or stall. Every network operation takes at least one tick of
the time left to the call. */
module RedisClient {
  import opened Text
  import opened Resp

  /** An open socket: the chunks the next reads will return, and whether the peer closes
  after them. */
  datatype Stream = Stream(feed: seq<string>, closed: bool)

  /** A command the server has executed, with the reply it sent. */
  datatype Exchange = Exchange(command: seq<string>, reply: Reply)

  /** The outcome of reading one reply, or of a call: a value, the error the server answered
  with, or any other exception. */
  datatype Result = Ok(value: Value) | Error(text: string) | Fail

  /** The outcome of reading several replies. */
  datatype Batch = Values(values: seq<Value>) | Refusal(at: nat, text: string) | Broken

  predicate NonEmpty(chunks: seq<string>) { forall i :: 0 <= i < |chunks| ==> chunks[i] != "" }

  function Nulls(n: nat): (r: seq<Reply>)
    ensures |r| == n && WellFormedAll(r)
  {
    if n == 0 then [] else [NullBulk] + Nulls(n - 1)
  }

  function Commands(commands: seq<seq<string>>): seq<Reply> {
    seq(|commands|, i requires 0 <= i < |commands| => Command(commands[i]))
  }

  lemma CommandsOfOne(arguments: seq<string>)
    ensures WireAll(Commands([arguments])) == Wire(Command(arguments))
  {
    assert Commands([arguments]) == [Command(arguments)];
  }

  lemma CommandsGrow(commands: seq<seq<string>>, i: nat)
    requires i < |commands|
    ensures WireAll(Commands(commands[..i + 1])) == WireAll(Commands(commands[..i])) + Wire(Command(commands[i]))
  {
    hide WireAll, Wire, Command;
    assert Commands(commands[..i + 1]) == Commands(commands[..i]) + Commands([commands[i]]);
    WireAllAppend(Commands(commands[..i]), Commands([commands[i]]));
    CommandsOfOne(commands[i]);
  }

  predicate Sendable(command: seq<string>) {
    command != [] && forall a :: a in command ==> |a| <= MAX_ARGUMENT
  }

  predicate AllSendable(commands: seq<seq<string>>) {
    forall i :: 0 <= i < |commands| ==> Sendable(commands[i])
  }

  method EncodeAll(commands: seq<seq<string>>) returns (payload: Option<string>)
    ensures payload.Some? ==> payload.value == WireAll(Commands(commands))
    ensures payload.Some? <==> AllSendable(commands)
  {
    assert Commands(commands[..0]) == [];
    WireAllEmpty(Commands(commands[..0]));
    hide WireAll, Wire, Commands, Command;
    var text := "";
    for i := 0 to |commands|
      invariant text == WireAll(Commands(commands[..i]))
      invariant forall k :: 0 <= k < i ==> Sendable(commands[k])
    {
      if commands[i] == [] {
        return None;
      }
      var encoded := Encode(commands[i]);
      if encoded.None? {
        return None;
      }
      CommandsGrow(commands, i);
      text := text + encoded.value;
    }
    assert commands[..|commands|] == commands;
    return Some(text);
  }

  function Exchanges(commands: seq<seq<string>>, replies: seq<Reply>): (exchanges: seq<Exchange>)
    requires |commands| == |replies|
    ensures |exchanges| == |commands|
  {
    seq(|commands|, i requires 0 <= i < |commands| => Exchange(commands[i], replies[i]))
  }

  ghost predicate Mean(replies: seq<Reply>, values: seq<Value>) {
    |values| == |replies| && forall i :: 0 <= i < |replies| ==> Meaning(replies[i], "") == Done(values[i], "")
  }

  lemma {:induction false} MeanGrows(replies: seq<Reply>, values: seq<Value>, i: nat, value: Value)
    requires i < |replies| && Mean(replies[..i], values) && Meaning(replies[i], "") == Done(value, "")
    ensures Mean(replies[..i + 1], values + [value])
  {
    hide Meaning;
    assert forall k :: 0 <= k < i ==> replies[..i + 1][k] == replies[..i][k];
  }

  lemma MeanIsLong(replies: seq<Reply>, values: seq<Value>)
    requires Mean(replies, values)
    ensures |values| == |replies|
  {
  }

  lemma {:induction false} MeanIsDone(replies: seq<Reply>, values: seq<Value>, i: nat, text: string)
    requires i < |replies| && Mean(replies[..i], values) && Meaning(replies[i], "") == Failed(text)
    ensures FirstRefusal(replies, i, text)
  {
    hide Meaning;
    assert forall k :: 0 <= k < i ==> replies[k] == replies[..i][k];
  }

  lemma WireAllEmpty(replies: seq<Reply>)
    requires replies == []
    ensures WireAll(replies) == ""
  {
  }

  lemma {:induction false} WireAllSplits(replies: seq<Reply>, i: nat)
    requires i < |replies|
    ensures WireAll(replies) == WireAll(replies[..i]) + (Wire(replies[i]) + WireAll(replies[i + 1..]))
    ensures WireAll(replies[..i + 1]) == WireAll(replies[..i]) + Wire(replies[i])
  {
    hide Wire, WireAll;
    assert replies == replies[..i] + replies[i..];
    WireAllAppend(replies[..i], replies[i..]);
    WireAllStep(replies[i..]);
    assert replies[i..][1..] == replies[i + 1..];
    assert replies[..i] + [replies[i]] == replies[..i + 1];
    WireAllAppend(replies[..i], [replies[i]]);
    WireAllStep([replies[i]]);
  }

  /** After `i` replies, what is left of an arrived prefix starts with reply `i`. */
  lemma {:induction false} NextReply(replies: seq<Reply>, i: nat, left: string, arrived: string)
    requires i < |replies| && WellFormedAll(replies)
    requires arrived <= WireAll(replies) && arrived == WireAll(replies[..i]) + left
    ensures WellFormed(replies[i]) && left <= Wire(replies[i]) + WireAll(replies[i + 1..])
    ensures arrived == WireAll(replies) ==> left == Wire(replies[i]) + WireAll(replies[i + 1..])
    ensures WireAll(replies[..i + 1]) == WireAll(replies[..i]) + Wire(replies[i])
  {
    hide Wire, WireAll, WellFormed, WellFormedAll;
    WellFormedAt(replies, i);
    WireAllSplits(replies, i);
    CancelPrefix(WireAll(replies[..i]), left, Wire(replies[i]) + WireAll(replies[i + 1..]));
  }

  lemma NextFits(replies: seq<Reply>, i: nat, limits: Limits)
    requires i < |replies| && FitsAll(replies[i..], 0, limits)
    ensures Fits(replies[i], 0, limits)
    ensures Meaning(replies[i], "").Failed? || FitsAll(replies[i + 1..], 0, limits)
  {
    hide Fits, Meaning;
    assert replies[i..][0] == replies[i] && replies[i..][1..] == replies[i + 1..];
  }

  lemma CancelPrefix(a: string, x: string, y: string)
    requires a + x <= a + y
    ensures x <= y && (a + x == a + y ==> x == y)
  {
    assert x == (a + x)[|a|..] && y == (a + y)[|a|..];
  }

  lemma WireAllStep(replies: seq<Reply>)
    requires replies != []
    ensures WireAll(replies) == Wire(replies[0]) + WireAll(replies[1..])
    ensures |replies| == 1 ==> WireAll(replies) == Wire(replies[0])
    ensures WireAll(replies) != ""
  {
    WireStarts(replies[0]);
    hide Wire;
    if |replies| == 1 { assert replies[1..] == []; }
  }

  lemma WireStarts(r: Reply)
    ensures |Wire(r)| > 0
  {
    hide IntText, WireAll;
  }

  lemma {:induction false} WellFormedAt(replies: seq<Reply>, i: nat)
    requires i < |replies| && WellFormedAll(replies)
    ensures WellFormed(replies[i])
  {
    if i > 0 { WellFormedAt(replies[1..], i - 1); }
  }

  lemma AllRead(replies: seq<Reply>, arrived: string, left: string)
    requires replies != [] && arrived <= WireAll(replies) && arrived == WireAll(replies[..|replies|]) + left
    ensures left == "" && arrived != ""
  {
    assert replies[..|replies|] == replies;
    WireAllStep(replies);
  }

  /** One line read through a feed of chunks, as the refill loop does it: the size check
  precedes every refill. */
  function LineFrom(buffer: string, feed: seq<string>, max: int): Option<string>
    decreases feed
  {
    var end := FindCrlf(buffer);
    if end >= 0 then (if end > max then None else Some(buffer[..end]))
    else if |buffer| > max || feed == [] then None
    else LineFrom(buffer + feed[0], feed[1..], max)
  }

  lemma {:induction false} LineFromUnfolds(buffer: string, feed: seq<string>, max: int)
    ensures FindCrlf(buffer) < 0 && |buffer| <= max && feed != [] ==>
              LineFrom(buffer, feed, max) == LineFrom(buffer + feed[0], feed[1..], max)
    ensures FindCrlf(buffer) < 0 && (|buffer| > max || feed == []) ==> LineFrom(buffer, feed, max) == None
    ensures FindCrlf(buffer) >= 0 ==>
              LineFrom(buffer, feed, max) == if FindCrlf(buffer) > max then None else Some(buffer[..FindCrlf(buffer)])
  {
  }

  lemma {:induction false} LineInBuffer(buffer: string, more: string, limit: int)
    ensures FindCrlf(buffer) >= 0 ==>
              var end := FindCrlf(buffer);
              TakeLine(buffer + more, limit) ==
              if end > limit then LongLine else Line(buffer[..end], buffer[end + 2..] + more)
    ensures FindCrlf(buffer) < 0 && TakeLine(buffer + more, limit).Line? ==> |buffer| <= limit + 1 && more != ""
  {
    var end := FindCrlf(buffer);
    if end >= 0 {
      FindCrlfExtends(buffer, more);
      assert (buffer + more)[..end] == buffer[..end] && (buffer + more)[end + 2..] == buffer[end + 2..] + more;
    } else if FindCrlf(buffer + more) >= 0 {
      FindCrlfPending(buffer, more);
    }
  }

  lemma {:induction false} NothingToFlatten()
    ensures Flatten([]) == ""
  {
  }

  /** Some of the reads, one after the other, bring the buffer to exactly `target`. */
  predicate Passes(buffer: string, feed: seq<string>, target: string)
    decreases feed
  {
    buffer == target || (feed != [] && Passes(buffer + feed[0], feed[1..], target))
  }

  lemma {:induction false} NoWayBack(buffer: string, feed: seq<string>, target: string)
    requires |buffer| > |target|
    ensures !Passes(buffer, feed, target)
    decreases feed
  {
    if feed != [] { NoWayBack(buffer + feed[0], feed[1..], target); }
  }

  /** A line is read back from a given cut into reads if and only if it is shorter than the
  configured maximum, or has exactly that length and no read ends between its CR and its LF. */
  lemma {:induction false} LineIsReadExactlyWhen(
      line: string, rest: string, buffer: string, feed: seq<string>, max: int)
    requires CrlfFree(line) && buffer + Flatten(feed) == line + CRLF + rest
    ensures LineFrom(buffer, feed, max) == Some(line) <==>
            |line| < max || (|line| == max && !Passes(buffer, feed, line + "\r"))
    decreases feed
  {
    var whole := line + CRLF + rest;
    FindCrlfAfterLine(line, rest);
    if FindCrlf(buffer) >= 0 {
      FindCrlfExtends(buffer, Flatten(feed));
      assert buffer[..|line|] == whole[..|line|] == line;
      NoWayBack(buffer, feed, line + "\r");
    } else {
      FindCrlfPending(buffer, Flatten(feed));
      assert |buffer| == |line| + 1 ==> buffer == whole[..|line| + 1] == line + "\r";
      Associate(buffer, feed[0], Flatten(feed[1..]));
      LineIsReadExactlyWhen(line, rest, buffer + feed[0], feed[1..], max);
    }
  }

  const READ_BYTES: nat := 64 * 1024

  /** What the client's reads can return, whatever the network does. */
  predicate AreReads(chunks: seq<string>) {
    forall i :: 0 <= i < |chunks| ==> 0 < |chunks[i]| <= READ_BYTES
  }

  /** A line arriving byte by byte, with its CR and its LF in different reads. */
  function Bytewise(line: string): seq<string> {
    if line == "" then ["\r", "\n"] else [line[..1]] + Bytewise(line[1..])
  }

  lemma {:induction false} BytewiseReads(line: string)
    ensures AreReads(Bytewise(line)) && Flatten(Bytewise(line)) == line + CRLF
  {
    if line == "" {
      assert ["\r", "\n"][1..] == ["\n"] && ["\n"][1..] == [];
      assert Flatten(["\r", "\n"]) == "\r" + ("\n" + "");
    } else {
      BytewiseReads(line[1..]);
      assert Bytewise(line)[1..] == Bytewise(line[1..]);
      assert line == line[..1] + line[1..];
      Associate(line[..1], line[1..], CRLF);
    }
  }

  lemma {:induction false} BytewiseSplits(seen: string, line: string)
    ensures Passes(seen, Bytewise(line), seen + line + "\r")
    decreases |line|
  {
    if line == "" {
      assert seen + line == seen;
      assert Passes(seen + "\r", ["\r", "\n"][1..], seen + "\r");
    } else {
      assert Bytewise(line)[0] == line[..1] && Bytewise(line)[1..] == Bytewise(line[1..]);
      assert line == line[..1] + line[1..];
      Associate(seen, line[..1], line[1..]);
      BytewiseSplits(seen + line[..1], line[1..]);
    }
  }

  /** So it is read back from every cut exactly when it is shorter than the maximum. */
  lemma LineSurvivesEveryCut(line: string, max: int)
    requires CrlfFree(line) && max >= 1
    ensures (forall feed :: AreReads(feed) && Flatten(feed) == line + CRLF ==> LineFrom("", feed, max) == Some(line))
      <==> |line| < max
  {
    var whole := line + CRLF + "";
    assert whole == line + CRLF;
    forall feed | AreReads(feed) && Flatten(feed) == line + CRLF
      ensures |line| < max ==> LineFrom("", feed, max) == Some(line)
    {
      assert "" + Flatten(feed) == whole;
      LineIsReadExactlyWhen(line, "", "", feed, max);
    }
    var split := Bytewise(line);
    BytewiseReads(line);
    BytewiseSplits("", line);
    assert "" + line == line && "" + Flatten(split) == whole;
    LineIsReadExactlyWhen(line, "", "", split, max);
  }

  ghost predicate Terminated(s: string, n: nat) { |s| >= n + 2 && s[n..n + 2] == CRLF }

  /** The last exchanges of the log are for these commands, and the values are what
  their replies mean. */
  ghost predicate Answered(before: seq<Exchange>, log: seq<Exchange>, commands: seq<seq<string>>, values: seq<Value>) {
    && before <= log
    && |before| + |commands| <= |log|
    && |values| == |commands|
    && var last := log[|log| - |commands|..];
       forall i :: 0 <= i < |commands| ==>
         last[i].command == commands[i] && Meaning(last[i].reply, "") == Done(values[i], "")
  }

  lemma AnsweredBy(before: seq<Exchange>, commands: seq<seq<string>>, replies: seq<Reply>, values: seq<Value>)
    requires |commands| == |replies| && Mean(replies, values)
    ensures Answered(before, before + Exchanges(commands, replies), commands, values)
  {
    hide Meaning;
    var log := before + Exchanges(commands, replies);
    assert log[|log| - |commands|..] == Exchanges(commands, replies);
  }

  /** Reply `at` is the first with an error, and this is its text. */
  ghost predicate FirstRefusal(replies: seq<Reply>, at: nat, text: string) {
    && at < |replies| && Meaning(replies[at], "") == Failed(text)
    && forall i :: 0 <= i < at ==> Meaning(replies[i], "").Done?
  }

  /** The last exchanges of the log are for these commands, and the first that the server
  answered with an error is number `at`, with this text. */
  ghost predicate AnsweredUpTo(
      before: seq<Exchange>, log: seq<Exchange>, commands: seq<seq<string>>, at: nat, text: string)
  {
    && before <= log
    && |before| + |commands| <= |log|
    && at < |commands|
    && var last := log[|log| - |commands|..];
       && (forall i :: 0 <= i < |commands| ==> last[i].command == commands[i])
       && Meaning(last[at].reply, "") == Failed(text)
       && forall i :: 0 <= i < at ==> Meaning(last[i].reply, "").Done?
  }

  lemma RefusedBy(before: seq<Exchange>, commands: seq<seq<string>>, replies: seq<Reply>, at: nat, text: string)
    requires |commands| == |replies| && FirstRefusal(replies, at, text)
    ensures AnsweredUpTo(before, before + Exchanges(commands, replies), commands, at, text)
  {
    hide Meaning;
    var log := before + Exchanges(commands, replies);
    assert log[|log| - |commands|..] == Exchanges(commands, replies);
  }

  /** The meanings of all the replies, or the text of the first one that is an error. */
  ghost predicate Tells(batch: Batch, replies: seq<Reply>) {
    match batch
    case Values(values) => Mean(replies, values)
    case Refusal(at, text) => FirstRefusal(replies, at, text)
    case Broken => false
  }

  lemma LastOnRecord(before: seq<Exchange>, last: seq<Exchange>)
    ensures (before + last)[|before + last| - |last|..] == last
  {
  }

  /** What is answered after a later point of the log is answered after an earlier one. */
  lemma AnsweredLater(before: seq<Exchange>, middle: seq<Exchange>, log: seq<Exchange>, commands: seq<seq<string>>)
    requires before <= middle
    ensures forall values :: Answered(middle, log, commands, values) ==> Answered(before, log, commands, values)
    ensures forall at, text ::
              AnsweredUpTo(middle, log, commands, at, text) ==> AnsweredUpTo(before, log, commands, at, text)
  {
    hide Meaning;
    if middle <= log { assert before == middle[..|before|] == log[..|before|]; }
  }

  lemma ErrorNeedsBytes(s: string, text: string, limits: Limits)
    requires Read(s, 0, limits) == Failed(text)
    ensures s != ""
  {
  }

  lemma NothingArrived(replies: seq<Reply>, i: nat, left: string, arrived: string)
    requires i < |replies| && arrived == WireAll(replies[..i]) + left
    ensures left != "" ==> arrived != ""
  {
  }

  lemma NoErrorInLine(s: string, limits: Limits)
    ensures !ReadInt(s, limits.line).Failed? && !ReadBulk(s, limits).Failed?
  {
  }

  /** The handshake as a whole. */
  lemma OneAfterAnother(
      a: seq<Exchange>, b: seq<Exchange>, c: seq<Exchange>, password: Option<string>, database: Option<string>)
    requires password.None? ==> b == a
    requires password.Some? ==> |b| == |a| + 1 && Answered(a, b, [["AUTH", password.value]], [Str("OK")])
    requires database.None? ==> c == b
    requires database.Some? ==> |c| == |b| + 1 && Answered(b, c, [["SELECT", database.value]], [Str("OK")])
    ensures
      var commands := (if password.Some? then [["AUTH", password.value]] else [])
                      + (if database.Some? then [["SELECT", database.value]] else []);
      |c| == |a| + |commands| && Answered(a, c, commands, seq(|commands|, _ => Str("OK")))
  {
    hide Meaning;
    assert seq(1, _ => Str("OK")) == [Str("OK")] && seq(2, _ => Str("OK")) == [Str("OK"), Str("OK")];
    if password.Some? && database.Some? {
      AnsweredInTurn(a, b, c, ["AUTH", password.value], ["SELECT", database.value], Str("OK"), Str("OK"));
      var auth, select := ["AUTH", password.value], ["SELECT", database.value];
      assert [auth] + [select] == [auth, select];
    }
  }

  /** Two conversations, one after the other, with nothing in between. */
  lemma AnsweredInTurn(
      a: seq<Exchange>, b: seq<Exchange>, c: seq<Exchange>,
      first: seq<string>, second: seq<string>, v: Value, w: Value)
    requires Answered(a, b, [first], [v]) && |b| == |a| + 1
    requires Answered(b, c, [second], [w]) && |c| == |b| + 1
    ensures Answered(a, c, [first, second], [v, w])
  {
    hide Meaning;
    assert a == b[..|a|] == c[..|a|];
    assert c[|c| - 2..] == [c[|a|], c[|b|]] && c[|a|] == b[|a|];
    assert b[|b| - 1..][0] == b[|a|] && c[|c| - 1..][0] == c[|b|];
    assert [first, second][0] == first && [first, second][1] == second && [v, w][0] == v && [v, w][1] == w;
  }

  /** What the network makes of one write: nothing comes of it, or the server executes the
  commands and these chunks of its replies arrive, after which it may close. */
  datatype Answer = Lost | Sent(replies: seq<Reply>, chunks: seq<string>, closes: bool)

  /** The server sends one reply per command, and what arrives is some of its bytes. An answer
  that breaks this is taken as nulls, or as nothing arriving. */
  function Sound(a: Answer, n: nat): (r: Answer)
    requires a.Sent?
    ensures r.Sent? && r.closes == a.closes && |r.replies| == n && WellFormedAll(r.replies)
    ensures NonEmpty(r.chunks) && Flatten(r.chunks) <= WireAll(r.replies)
    ensures |a.replies| == n && WellFormedAll(a.replies) ==> r.replies == a.replies
    ensures NonEmpty(a.chunks) && Flatten(a.chunks) <= WireAll(r.replies) ==> r.chunks == a.chunks
  {
    var replies := if |a.replies| == n && WellFormedAll(a.replies) then a.replies else Nulls(n);
    Sent(replies, if NonEmpty(a.chunks) && Flatten(a.chunks) <= WireAll(replies) then a.chunks else [], a.closes)
  }

  /** The replies to `n` commands arrive whole and are within the limits up to the first error. */
  ghost predicate Whole(a: Answer, n: nat, limits: Limits) {
    && a.Sent? && |a.replies| == n && WellFormedAll(a.replies)
    && NonEmpty(a.chunks) && Flatten(a.chunks) == WireAll(a.replies) && FitsAll(a.replies, 0, limits)
  }

  /** The time a whole answer takes: one write, and one read for each chunk. */
  function Cost(a: Answer): nat { if a.Sent? then 1 + |a.chunks| else 1 }

  function Costs(answers: seq<Answer>, n: nat): nat
    requires n <= |answers|
  {
    if n == 0 then 0 else Cost(answers[0]) + Costs(answers[1..], n - 1)
  }

  /** The next `n` commands are each answered with OK, in time, on a connection that stays. */
  ghost predicate Welcomes(answers: seq<Answer>, n: nat, ticks: int, limits: Limits)
    decreases n
  {
    n == 0
    || (&& answers != [] && Whole(answers[0], 1, limits) && !answers[0].closes && Cost(answers[0]) <= ticks
        && Meaning(answers[0].replies[0], "") == Done(Str("OK"), "")
        && Welcomes(answers[1..], n - 1, ticks - Cost(answers[0]), limits))
  }

  lemma {:induction false} WelcomesHas(answers: seq<Answer>, n: nat, ticks: int, limits: Limits)
    requires Welcomes(answers, n, ticks, limits)
    ensures n <= |answers| && (n > 0 ==> Costs(answers, n) <= ticks)
    decreases n
  {
    if n > 0 { WelcomesHas(answers[1..], n - 1, ticks - Cost(answers[0]), limits); }
  }

  /** One command of the handshake: what is left to answer, to wait for and to send. */
  lemma {:induction false} WelcomesNext(answers: seq<Answer>, n: nat, ticks: int, limits: Limits)
    requires n > 0 && Welcomes(answers, n, ticks, limits)
    ensures n <= |answers| && Whole(answers[0], 1, limits) && !answers[0].closes && Cost(answers[0]) <= ticks
    ensures Meaning(answers[0].replies[0], "") == Done(Str("OK"), "")
    ensures Welcomes(answers[1..], n - 1, ticks - Cost(answers[0]), limits)
    ensures Costs(answers, n) == Cost(answers[0]) + Costs(answers[1..], n - 1) && answers[1..][n - 1..] == answers[n..]
  {
    WelcomesHas(answers, n, ticks, limits);
  }

  class Client {
    const password: Option<string>
    const database: nat
    const maxBytes: int

    var stream: Option<Stream>
    var buffer: string
    var ticks: nat              // time left before the deadline of the current call
    var answers: seq<Answer>    // what the network makes of the writes to come
    var dials: seq<bool>        // which attempts to connect succeed
    ghost var log: seq<Exchange>

    constructor (password: Option<string>, database: nat, maxBytes: int, answers: seq<Answer>, dials: seq<bool>)
      requires maxBytes >= 1
      ensures Quiet() && this.password == password && this.database == database && this.maxBytes == maxBytes
      ensures this.answers == answers && this.dials == dials && stream.None? && log == []
    {
      this.password, this.database, this.maxBytes := password, database, maxBytes;
      this.answers, this.dials := answers, dials;
      stream, buffer, ticks, log := None, "", 0, [];
    }

    /** The time that is left once everything on its way has been read, and what the network
    still has in store. Reading changes none of it. */
    ghost function Outlook(): (int, bool, seq<Answer>, seq<bool>) reads this {
      if stream.None? then (ticks, false, answers, dials)
      else (ticks - |stream.value.feed|, stream.value.closed, answers, dials)
    }

    /** The next write of `n` commands is answered whole and in time. */
    ghost predicate Prompt(n: nat) reads this {
      && stream.Some? && !stream.value.closed && answers != []
      && Whole(answers[0], n, Tight()) && Cost(answers[0]) <= ticks
    }

    /** Every command of the handshake can be sent and is going to be answered with OK in time. */
    ghost predicate Welcome(timeout: int) reads `answers {
      && (forall c :: c in Handshake() ==> Sendable(c))
      && Welcomes(answers, |Handshake()|, timeout, Tight())
    }

    /** What a call with this much time finds once it has a connection: the answers to come and
    the time left. `None` when it does not get one, or may not. */
    ghost function Reach(timeout: nat): Option<(seq<Answer>, int)> reads `stream, `answers, `dials {
      if stream.Some? && !stream.value.closed then Some((answers, timeout))
      else if stream.None? && dials != [] && dials[0] && timeout > 0 && Welcome(timeout - 1) then
        WelcomesHas(answers, |Handshake()|, timeout - 1, Tight());
        Some((answers[|Handshake()|..], timeout - 1 - Costs(answers, |Handshake()|)))
      else None
    }

    /** The replies a call for `n` commands is going to read, if all goes well. */
    ghost function Expected(n: nat, timeout: nat): (replies: Option<seq<Reply>>)
      reads this
      ensures replies.Some? ==> |replies.value| == n
    {
      match Reach(timeout)
      case None => None
      case Some((coming, left)) =>
        if coming != [] && Whole(coming[0], n, Tight()) && Cost(coming[0]) <= left then Some(coming[0].replies)
        else None
    }

    /** Between calls there is no connection, or an idle one with nothing left to read. */
    ghost predicate Quiet() reads this {
      maxBytes >= 1 && buffer == "" && (stream.Some? ==> stream.value.feed == [])
    }

    ghost predicate Open() reads this {
      maxBytes >= 1 && stream.Some? && NonEmpty(stream.value.feed)
    }

    /** Everything that will still be read from this connection. */
    ghost function Rest(): string reads this {
      buffer + if stream.Some? then Flatten(stream.value.feed) else ""
    }

    /** There is time to read every chunk that is going to arrive. */
    ghost predicate Ample() reads this {
      stream.Some? && |stream.value.feed| <= ticks
    }

    /** The commands that open a connection, each to be answered with OK. */
    function Handshake(): seq<seq<string>> {
      (if password.Some? then [["AUTH", password.value]] else [])
      + (if database != 0 then [["SELECT", IntText(database)]] else [])
    }

    ghost function Loose(): Limits { Limits(maxBytes, maxBytes) }
    ghost function Tight(): Limits { Limits(maxBytes - 1, maxBytes) }

    method Close()
      modifies `stream, `buffer
      ensures stream.None? && buffer == ""
    {
      stream, buffer := None, "";
    }

    /** The server executes the commands and starts sending its replies. */
    method Write(payload: string, commands: seq<seq<string>>) returns (ok: bool, replies: seq<Reply>)
      requires Open() && payload == WireAll(Commands(commands))
      modifies `stream, `ticks, `log, `answers
      ensures ticks <= old(ticks) && Open()
      ensures old(Prompt(|commands|)) ==>
        var answer := old(answers)[0];
        && ok && replies == answer.replies && log == old(log) + Exchanges(commands, replies)
        && answers == old(answers)[1..] && ticks == old(ticks) - 1
        && stream == Some(Stream(old(stream.value.feed) + answer.chunks, answer.closes))
      ensures |replies| == |commands| && WellFormedAll(replies)
      ensures old(log) <= log
      ensures ok ==>
        exists arrived :: arrived <= WireAll(replies) && Rest() == old(Rest()) + arrived
          && (log == old(log) + Exchanges(commands, replies) || arrived == "")
    {
      hide WireAll, WellFormedAll, Sound, FitsAll;
      ok, replies := false, Nulls(|commands|);
      if ticks == 0 {
        return;
      }
      ticks := ticks - 1;
      if stream.value.closed {
        assert "" <= WireAll(replies) && Rest() == old(Rest()) + "";
        return true, replies;
      }
      if answers == [] {
        return;
      }
      var answer := answers[0];
      answers := answers[1..];
      if answer.Lost? {
        return;
      }
      answer := Sound(answer, |commands|);
      replies := answer.replies;
      log := log + Exchanges(commands, replies);
      FlattenAppend(stream.value.feed, answer.chunks);
      stream := Some(Stream(stream.value.feed + answer.chunks, answer.closes));
      assert Rest() == old(Rest()) + Flatten(answer.chunks);
      ok := true;
    }

    method Fill() returns (ok: bool)
      requires Open()
      modifies this
      ensures ticks <= old(ticks) && old(log) <= log
      ensures ok ==> Open() && Rest() == old(Rest()) && log == old(log)
      ensures ok ==> |buffer| > |old(buffer)| && ticks < old(ticks) && Outlook() == old(Outlook())
      ensures old(Ample()) && old(stream.value.feed) != [] && |old(buffer)| <= maxBytes ==> ok && Ample()
      ensures ok ==> old(stream.value.feed) != [] && |old(buffer)| <= maxBytes
      ensures ok ==> buffer == old(buffer + stream.value.feed[0]) && stream.value.feed == old(stream.value.feed[1..])
      decreases ticks, 0, 1
    {
      if |buffer| > maxBytes {
        return false;
      }
      ok := Connection();
      if !ok || ticks == 0 {
        return false;
      }
      ticks := ticks - 1;
      var feed := stream.value.feed;
      if feed == [] {
        return false;   // the peer has closed, or the read times out
      }
      buffer := buffer + feed[0];
      stream := Some(stream.value.(feed := feed[1..]));
    }

    /** Since `before` exactly the handshake was exchanged, and every answer was OK. */
    ghost predicate Greeted(before: seq<Exchange>) reads this {
      && |log| == |before| + |Handshake()|
      && Answered(before, log, Handshake(), seq(|Handshake()|, _ => Str("OK")))
    }

    /** Reuses the connection unless the end of the stream has been seen; otherwise
    connects, authenticates and selects the database. */
    method Connection() returns (ok: bool)
      requires maxBytes >= 1 && (stream.Some? ==> Open())
      modifies this
      ensures ticks <= old(ticks) && old(log) <= log
      ensures ok ==> Open()
      ensures ok ==>
        || (stream == old(stream) && buffer == old(buffer) && ticks == old(ticks) && log == old(log))
        || (Quiet() && Greeted(old(log)))
      ensures old(stream.Some?) && (old(stream.value.feed) != [] || !old(stream.value.closed)) ==>
        ok && unchanged(this)
      ensures old(Reach(ticks)).Some? ==>
        && ok && stream.Some? && !stream.value.closed
        && answers == old(Reach(ticks)).value.0 && ticks == old(Reach(ticks)).value.1
      decreases ticks, 0, 0
    {
      var eofSeen: bool := *;
      if stream.Some? && !(stream.value.feed == [] && stream.value.closed && eofSeen) {
        return true;
      }
      Close();
      if ticks == 0 {
        return false;
      }
      ticks := ticks - 1;
      if dials == [] {
        return false;
      }
      ok, dials := dials[0], dials[1..];
      if !ok {
        return;
      }
      stream := Some(Stream([], false));
      ok := Introduce();
    }

    /** The handshake on a new connection. */
    method Introduce() returns (ok: bool)
      requires Open() && Quiet()
      modifies this
      ensures ticks <= old(ticks) && old(log) <= log
      ensures ok ==> Open() && Quiet() && Greeted(old(log))
      ensures !old(stream.value.closed) && old(Welcome(ticks)) ==>
        var n := |Handshake()|;
        && ok && n <= |old(answers)| && answers == old(answers)[n..] && ticks == old(ticks) - Costs(old(answers), n)
        && stream == Some(Stream([], false))
      decreases ticks, 40, 2
    {
      ghost var n := |Handshake()|;
      assert forall rest :: Costs(rest, 0) == 0;
      hide Answered, IntText, Meaning, Sendable, Welcomes, Costs;
      if password.Some? {
        assert ["AUTH", password.value] == Handshake()[0];
        ok := GreetNext(["AUTH", password.value], n);
        if !ok {
          return;
        }
        n := n - 1;
      }
      ghost var middle := log;
      if database != 0 {
        assert ["SELECT", IntText(database)] == Handshake()[|Handshake()| - 1];
        ok := GreetNext(["SELECT", IntText(database)], n);
        if !ok {
          return;
        }
      }
      OneAfterAnother(old(log), middle, log, password, if database != 0 then Some(IntText(database)) else None);
      return true;
    }

    /** One of the `n` handshake commands that are left. */
    method GreetNext(arguments: seq<string>, ghost n: nat) returns (ok: bool)
      requires Open() && Quiet() && n > 0
      modifies this
      ensures ticks <= old(ticks) && old(log) <= log
      ensures ok ==> Open() && Quiet()
      ensures ok ==> |log| == |old(log)| + 1 && Answered(old(log), log, [arguments], [Str("OK")])
      ensures Sendable(arguments) && !old(stream.value.closed) && old(Welcomes(answers, n, ticks, Tight())) ==>
        && ok && n <= |old(answers)| && answers == old(answers)[1..] && Welcomes(answers, n - 1, ticks, Tight())
        && n - 1 <= |answers| && ticks - Costs(answers, n - 1) == old(ticks) - Costs(old(answers), n)
        && stream == Some(Stream([], false))
      decreases ticks, 40, 1
    {
      ghost var live := !stream.value.closed && Welcomes(answers, n, ticks, Tight());
      if live { WelcomesNext(answers, n, ticks, Tight()); }
      hide Answered, Meaning, Whole, Sendable, Welcomes, Costs, Cost;
      ok := Greet(arguments);
    }

    /** One handshake command, which must be answered with OK. */
    method Greet(arguments: seq<string>) returns (ok: bool)
      requires Open() && Quiet()
      modifies this
      ensures ticks <= old(ticks) && old(log) <= log
      ensures ok ==> Open() && Quiet()
      ensures ok ==> |log| == |old(log)| + 1 && Answered(old(log), log, [arguments], [Str("OK")])
      ensures
        && Sendable(arguments) && old(Prompt(1))
        && Meaning(old(answers)[0].replies[0], "") == Done(Str("OK"), "") ==>
        && ok && answers == old(answers)[1..] && ticks == old(ticks) - Cost(old(answers)[0])
        && stream == Some(Stream([], old(answers)[0].closes))
      decreases ticks, 40, 0
    {
      var payload := Encode(arguments);
      if payload.None? {
        return false;
      }
      CommandsOfOne(arguments);
      var batch := Converse(payload.value, [arguments]);
      return batch == Values([Str("OK")]);
    }

    method ReadExact(length: nat) returns (value: Option<string>)
      requires Open()
      modifies this
      ensures ticks <= old(ticks) && old(log) <= log
      ensures value.Some? ==> Open() && log == old(log) && |old(Rest())| >= length
      ensures value.Some? ==> value.value == old(Rest())[..length] && Rest() == old(Rest())[length..]
      ensures value.Some? ==> Outlook() == old(Outlook())
      ensures old(Ample()) && |old(Rest())| >= length && length <= maxBytes + 1 ==> value.Some? && Ample()
      decreases ticks, 0, 2
    {
      while |buffer| < length
        invariant ticks <= old(ticks) && Open() && Rest() == old(Rest()) && log == old(log)
        invariant Outlook() == old(Outlook())
        invariant old(Ample()) && |old(Rest())| >= length && length <= maxBytes + 1 ==> Ample()
        decreases ticks
      {
        var ok := Fill();
        if !ok {
          return None;
        }
      }
      value := Some(buffer[..length]);
      buffer := buffer[length..];
    }

    method ReadLine() returns (line: Option<string>)
      requires Open()
      modifies this
      ensures ticks <= old(ticks) && old(log) <= log
      ensures line.Some? ==> Open() && log == old(log) && TakeLine(old(Rest()), maxBytes) == Line(line.value, Rest())
      ensures line.Some? ==> Outlook() == old(Outlook())
      ensures old(Ample()) && TakeLine(old(Rest()), maxBytes - 1).Line? ==> line.Some? && Ample()
      ensures old(Ample()) ==> line == LineFrom(old(buffer), old(stream.value.feed), maxBytes)
      decreases ticks, 0, 2
    {
      hide TakeLine, LineFrom, Flatten, FindCrlf;
      NothingToFlatten();
      while FindCrlf(buffer) < 0
        invariant ticks <= old(ticks) && Open() && Rest() == old(Rest()) && log == old(log)
        invariant Outlook() == old(Outlook())
        invariant old(Ample()) ==>
          && Ample()
          && LineFrom(buffer, stream.value.feed, maxBytes) == LineFrom(old(buffer), old(stream.value.feed), maxBytes)
        decreases ticks
      {
        LineInBuffer(buffer, Flatten(stream.value.feed), maxBytes - 1);
        LineFromUnfolds(buffer, stream.value.feed, maxBytes);
        var ok := Fill();
        if !ok {
          return None;
        }
      }
      LineInBuffer(buffer, Flatten(stream.value.feed), maxBytes);
      LineInBuffer(buffer, Flatten(stream.value.feed), maxBytes - 1);
      LineFromUnfolds(buffer, stream.value.feed, maxBytes);
      var end := FindCrlf(buffer);
      var text := buffer[..end];
      buffer := buffer[end + 2..];
      if |text| > maxBytes {
        return None;
      }
      return Some(text);
    }

    method ReadInteger() returns (number: Option<int>)
      requires Open()
      modifies this
      ensures ticks <= old(ticks) && old(log) <= log
      ensures number.Some? ==> Open() && log == old(log) && Outlook() == old(Outlook())
      ensures number.Some? ==> ReadInt(old(Rest()), maxBytes) == Done(Int(number.value), Rest())
      ensures old(Ample()) && ReadInt(old(Rest()), maxBytes - 1).Done? ==> number.Some? && Ample()
      decreases ticks, 0, 3
    {
      var line := ReadLine();
      if line.None? {
        return None;
      }
      return ParseInt(line.value);
    }

    method ReadBulkValue() returns (result: Result)
      requires Open()
      modifies this
      ensures ticks <= old(ticks) && old(log) <= log
      ensures !result.Error?
      ensures result.Ok? ==> Open() && log == old(log) && ReadBulk(old(Rest()), Loose()) == Done(result.value, Rest())
      ensures result.Ok? ==> Outlook() == old(Outlook())
      ensures old(Ample()) && ReadBulk(old(Rest()), Tight()).Done? ==> result.Ok? && Ample()
      decreases ticks, 0, 4
    {
      hide ReadInt, Flatten;
      ReadIntMonotone(Rest(), maxBytes - 1, maxBytes);
      var length := ReadInteger();
      if length.None? {
        return Fail;
      }
      var n := length.value;
      if n == -1 {
        return Ok(Null);
      }
      if n < 0 || n > maxBytes {
        return Fail;
      }
      var text := ReadTerminated(n);
      return if text.None? then Fail else Ok(Str(text.value));
    }

    method ReadTerminated(n: nat) returns (text: Option<string>)
      requires Open() && n <= maxBytes
      modifies this
      ensures ticks <= old(ticks) && old(log) <= log
      ensures text.Some? ==> Open() && log == old(log) && Terminated(old(Rest()), n)
      ensures text.Some? ==> text.value == old(Rest())[..n] && Rest() == old(Rest())[n + 2..]
      ensures text.Some? ==> Outlook() == old(Outlook())
      ensures old(Ample()) && Terminated(old(Rest()), n) ==> text.Some? && Ample()
      decreases ticks, 0, 3
    {
      ghost var rest := Rest();
      hide Flatten;
      text := ReadExact(n);
      if text.None? {
        return;
      }
      var terminator := ReadExact(2);
      assert |rest| >= n + 2 ==> rest[n..][..2] == rest[n..n + 2] && rest[n..][2..] == rest[n + 2..];
      if terminator != Some(CRLF) {
        return None;
      }
    }

    /** The reading of one reply does not depend on how its bytes were cut into reads. */
    method ReadValue(depth: nat) returns (result: Result)
      requires Open() && depth <= MAX_DEPTH + 1
      modifies this
      ensures ticks <= old(ticks) && old(log) <= log
      ensures result.Ok? ==> Open() && log == old(log) && Outlook() == old(Outlook())
      ensures result.Ok? ==> Read(old(Rest()), depth, Loose()) == Done(result.value, Rest())
      ensures result.Error? ==> log == old(log) && Read(old(Rest()), depth, Loose()) == Failed(result.text)
      ensures old(Ample()) && Read(old(Rest()), depth, Tight()).Done? ==> result.Ok? && Ample()
      ensures old(Ample()) && Read(old(Rest()), depth, Tight()).Failed? ==> result.Error?
      decreases ticks, MAX_DEPTH + 2 - depth, 0
    {
      hide ReadInt, ReadBulk, TakeLine, ReadItems, Flatten;
      if depth > MAX_DEPTH {
        return Fail;
      }
      var prefix := ReadExact(1);
      if prefix.None? {
        return Fail;
      }
      NoErrorInLine(Rest(), Tight());
      match prefix.value[0]
      case '+' =>
        var line := ReadLine();
        return if line.None? then Fail else Ok(Str(line.value));
      case '-' =>
        var line := ReadLine();
        return if line.None? then Fail else Error(line.value);
      case ':' =>
        var number := ReadInteger();
        return if number.None? then Fail else Ok(Int(number.value));
      case '$' =>
        result := ReadBulkValue();
      case '*' =>
        result := ReadArray(depth + 1);
      case _ =>
        return Fail;
    }

    ghost function ReadCounted(s: string, depth: nat, limits: Limits): Outcome {
      match ReadInt(s, limits.line)
      case Done(Int(n), rest) =>
        if n == -1 then Done(Null, rest)
        else if n < 0 || n > MAX_ITEMS then Refused
        else ReadItems(rest, n, depth, limits)
      case other => other
    }

    method ReadArray(depth: nat) returns (result: Result)
      requires Open() && depth <= MAX_DEPTH + 1
      modifies this
      ensures ticks <= old(ticks) && old(log) <= log
      ensures result.Ok? ==> Open() && log == old(log) && Outlook() == old(Outlook())
      ensures result.Ok? ==> ReadCounted(old(Rest()), depth, Loose()) == Done(result.value, Rest())
      ensures result.Error? ==> log == old(log) && ReadCounted(old(Rest()), depth, Loose()) == Failed(result.text)
      ensures old(Ample()) && ReadCounted(old(Rest()), depth, Tight()).Done? ==> result.Ok? && Ample()
      ensures old(Ample()) && ReadCounted(old(Rest()), depth, Tight()).Failed? ==> result.Error?
      decreases ticks, MAX_DEPTH + 2 - depth, 1
    {
      hide ReadInt, Read, Flatten;
      ReadIntMonotone(Rest(), maxBytes - 1, maxBytes);
      NoErrorInLine(Rest(), Tight());
      ghost var tight := ReadCounted(Rest(), depth, Tight());
      ghost var live := Ample() && (tight.Done? || tight.Failed?);
      var counted := ReadInteger();
      if counted.None? {
        return Fail;
      }
      var count := counted.value;
      if count == -1 {
        return Ok(Null);
      }
      if count < 0 || count > MAX_ITEMS {
        return Fail;
      }
      var values: seq<Value> := [];
      ghost var start := Rest();
      JoinJoin([], [], ReadItems(start, count, depth, Loose()));
      JoinJoin([], [], ReadItems(start, count, depth, Tight()));
      for i := 0 to count
        invariant Open() && ticks <= old(ticks) && log == old(log) && Outlook() == old(Outlook())
        invariant Join(values, ReadItems(Rest(), count - i, depth, Loose())) == ReadItems(start, count, depth, Loose())
        invariant live ==> Ample() && Join(values, ReadItems(Rest(), count - i, depth, Tight())) == tight
      {
        ghost var before := Rest();
        var value := ReadValue(depth);
        ReadMonotone(before, depth, Tight(), Loose());
        if !value.Ok? {
          return value;
        }
        JoinJoin(values, [value.value], ReadItems(Rest(), count - i - 1, depth, Tight()));
        JoinJoin(values, [value.value], ReadItems(Rest(), count - i - 1, depth, Loose()));
        values := values + [value.value];
      }
      return Ok(List(values));
    }

    lemma Exhausted()
      requires Open() && Rest() == ""
      ensures Quiet()
    {
    }

    /** Reads one value per reply, in order, and consumes exactly the replies, up to the first
    reply with an error. Cut into any chunks, replies within the limits up to there all arrive. */
    method ReadReplies(count: nat, ghost replies: seq<Reply>) returns (batch: Batch)
      requires Open() && |replies| == count > 0 && WellFormedAll(replies) && Rest() <= WireAll(replies)
      modifies this
      ensures ticks <= old(ticks) && old(log) <= log
      ensures !batch.Broken? ==> log == old(log) && old(Rest()) != ""
      ensures batch.Values? ==> Open() && Quiet() && |batch.values| == count && Mean(replies, batch.values)
      ensures batch.Values? ==> Outlook() == old(Outlook())
      ensures batch.Refusal? ==> batch.at < count && FirstRefusal(replies, batch.at, batch.text)
      ensures old(Ample()) && old(Rest()) == WireAll(replies) && FitsAll(replies, 0, Tight()) ==> !batch.Broken?
      decreases ticks, MAX_DEPTH + 3, 0
    {
      hide Wire, WireAll, WellFormedAll, Meaning, Read, Flatten, Fits, FitsAll;
      ghost var arrived := Rest();
      ghost var live := Ample() && Rest() == WireAll(replies) && FitsAll(replies, 0, Tight());
      assert replies[0..] == replies;
      WireAllEmpty(replies[..0]);
      var found: seq<Value> := [];
      assert Mean(replies[..0], found);
      hide Mean, FirstRefusal, Outlook;
      for i := 0 to count
        invariant Open() && ticks <= old(ticks) && log == old(log) && Outlook() == old(Outlook())
        invariant arrived == WireAll(replies[..i]) + Rest()
        invariant Mean(replies[..i], found)
        invariant live ==> Ample() && FitsAll(replies[i..], 0, Tight())
      {
        ghost var before, later := Rest(), WireAll(replies[i + 1..]);
        NextReply(replies, i, before, arrived);
        if live {
          NextFits(replies, i, Tight());
          ReadWire(replies[i], later, 0, Tight());
          MeaningIgnoresRest(replies[i], "", later);
        }
        var result := ReadValue(0);
        ReadOfPrefix(replies[i], later, before, 0, Loose());
        if result.Fail? {
          return Broken;
        }
        if result.Error? {
          NothingArrived(replies, i, before, arrived);
          ErrorNeedsBytes(before, result.text, Loose());
          MeanIsDone(replies, found, i, result.text);
          return Refusal(i, result.text);
        }
        Associate(WireAll(replies[..i]), Wire(replies[i]), Rest());
        MeanGrows(replies, found, i, result.value);
        found := found + [result.value];
      }
      AllRead(replies, arrived, Rest());
      Exhausted();
      assert replies[..count] == replies;
      MeanIsLong(replies, found);
      return Values(found);
    }

    /** Writes commands on an idle connection and reads one reply for each. */
    method Converse(payload: string, commands: seq<seq<string>>) returns (batch: Batch)
      requires Open() && Quiet() && commands != [] && payload == WireAll(Commands(commands))
      modifies this
      ensures ticks <= old(ticks) && old(log) <= log
      ensures !batch.Broken? ==> |log| == |old(log)| + |commands|
      ensures batch.Values? ==> |batch.values| == |commands|
      ensures batch.Values? ==> Open() && Quiet() && Answered(old(log), log, commands, batch.values)
      ensures batch.Refusal? ==> batch.at < |commands| && AnsweredUpTo(old(log), log, commands, batch.at, batch.text)
      ensures old(Prompt(|commands|)) ==>
        log == old(log) + Exchanges(commands, old(answers)[0].replies) && Tells(batch, old(answers)[0].replies)
      ensures old(Prompt(|commands|)) && batch.Values? ==>
        && answers == old(answers)[1..] && ticks == old(ticks) - Cost(old(answers)[0])
        && stream == Some(Stream([], old(answers)[0].closes))
      decreases ticks, MAX_DEPTH + 4, 0
    {
      hide Wire, WireAll, WellFormedAll, Meaning, Answered, AnsweredUpTo, Mean, FirstRefusal;
      var ok, replies := Write(payload, commands);
      if !ok {
        return Broken;
      }
      assert old(Rest()) == "";
      ghost var arrived :| arrived <= WireAll(replies) && Rest() == old(Rest()) + arrived
        && (log == old(log) + Exchanges(commands, replies) || arrived == "");
      assert Rest() == arrived;
      ghost var written := log;
      assert old(Prompt(|commands|)) ==> stream.value.feed == old(answers)[0].chunks;
      batch := ReadReplies(|commands|, replies);
      if !batch.Broken? {
        assert written == old(log) + Exchanges(commands, replies);
        if batch.Values? {
          AnsweredBy(old(log), commands, replies, batch.values);
        } else {
          RefusedBy(old(log), commands, replies, batch.at, batch.text);
        }
      }
    }

    /** Over every sequence of calls, failures included, a successful call returns the
    meaning of the server's reply to its own command, and every call leaves either no
    connection or an idle one. */
    method Command(arguments: seq<string>, timeout: nat) returns (result: Result)
      requires Quiet()
      modifies this
      ensures Quiet() && old(log) <= log
      ensures result.Ok? ==> Answered(old(log), log, [arguments], [result.value])
      ensures result.Error? ==> AnsweredUpTo(old(log), log, [arguments], 0, result.text)
      ensures !result.Ok? && arguments != [] ==> stream.None?
      ensures arguments == [] ==> result.Fail? && log == old(log) && stream == old(stream)
      ensures !Sendable(arguments) ==> result.Fail?
      ensures result.Ok? ==> stream.Some?
      ensures Sendable(arguments) && old(Expected(1, timeout)).Some? ==>
        var reply := old(Expected(1, timeout)).value[0];
        && log != [] && log[|log| - 1] == Exchange(arguments, reply)
        && ((result.Ok? && Meaning(reply, "") == Done(result.value, ""))
            || (result.Error? && Meaning(reply, "") == Failed(result.text)))
    {
      hide Answered, AnsweredUpTo, Meaning, Wire, WireAll, Whole, Reach, Greeted;
      if arguments == [] {
        return Fail;
      }
      ticks := timeout;
      var ok := Connection();
      var payload := Encode(arguments);
      if !ok || payload.None? {
        Close();
        return Fail;
      }
      CommandsOfOne(arguments);
      ghost var greeted := log;
      var batch := Converse(payload.value, [arguments]);
      AnsweredLater(old(log), greeted, log, [arguments]);
      match batch {
        case Values(values) =>
          assert values == [values[0]];
          return Ok(values[0]);
        case Refusal(_, text) =>
          Close();
          return Error(text);
        case Broken =>
          Close();
          return Fail;
      }
    }

    /** One connection, one write and one reply per command; a failure drops the connection. */
    method Deliver(payload: string, commands: seq<seq<string>>, timeout: nat) returns (batch: Batch)
      requires Quiet() && commands != [] && payload == WireAll(Commands(commands))
      modifies this
      ensures Quiet() && old(log) <= log
      ensures batch.Values? ==> stream.Some? && Answered(old(log), log, commands, batch.values)
      ensures batch.Refusal? ==> AnsweredUpTo(old(log), log, commands, batch.at, batch.text)
      ensures !batch.Values? ==> stream.None?
      ensures old(Expected(|commands|, timeout)).Some? ==>
        var replies := old(Expected(|commands|, timeout)).value;
        && |log| >= |commands| && log[|log| - |commands|..] == Exchanges(commands, replies)
        && Tells(batch, replies)
    {
      hide Answered, AnsweredUpTo, Tells, Whole, Reach, Exchanges, WireAll, Commands;
      ghost var expected := Expected(|commands|, timeout);
      ticks := timeout;
      var ok := Connection();
      if !ok {
        Close();
        return Broken;
      }
      ghost var greeted := log;
      batch := Converse(payload, commands);
      AnsweredLater(old(log), greeted, log, commands);
      if expected.Some? { LastOnRecord(greeted, Exchanges(commands, expected.value)); }
      if !batch.Values? {
        Close();
      }
    }

    method Pipeline(commands: seq<seq<string>>, timeout: nat) returns (batch: Batch)
      requires Quiet()
      modifies this
      ensures Quiet() && old(log) <= log
      ensures batch.Values? ==> Answered(old(log), log, commands, batch.values)
      ensures batch.Refusal? ==> AnsweredUpTo(old(log), log, commands, batch.at, batch.text)
      ensures !batch.Values? ==> stream.None? || (stream == old(stream) && log == old(log))
      ensures commands == [] ==> batch == Values([]) && unchanged(this)
      ensures !AllSendable(commands) ==> batch.Broken? && unchanged(this)
      ensures batch.Values? && commands != [] ==> stream.Some?
      ensures commands != [] && AllSendable(commands) && old(Expected(|commands|, timeout)).Some? ==>
        var replies := old(Expected(|commands|, timeout)).value;
        && |log| >= |commands| && log[|log| - |commands|..] == Exchanges(commands, replies)
        && Tells(batch, replies)
    {
      if commands == [] {
        assert AllSendable(commands);
        return Values([]);
      }
      hide Answered, AnsweredUpTo, Tells, Expected, Exchanges, AllSendable, WireAll, Commands;
      var payload := EncodeAll(commands);
      if payload.None? {
        return Broken;
      }
      batch := Deliver(payload.value, commands, timeout);
    }
  }
}
