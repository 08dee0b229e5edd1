/** RESP2: what a Redis server sends, and what the client reads out of it. */
module Resp {
  import opened Text

  /** A reply as the server means it. */
  datatype Reply =
    | Simple(text: string)
    | Failure(text: string)
    | Integer(number: int)
    | Bulk(text: string)
    | NullBulk
    | Many(items: seq<Reply>)
    | NullMany

  /** A PHP value as the client returns it. */
  datatype Value = Str(text: string) | Int(number: int) | Null | List(items: seq<Value>)

  // The wire format

  function Wire(r: Reply): string
    decreases r, 0
  {
    match r
    case Simple(text) => "+" + text + CRLF
    case Failure(text) => "-" + text + CRLF
    case Integer(n) => ":" + IntText(n) + CRLF
    case Bulk(text) => "$" + IntText(|text|) + CRLF + text + CRLF
    case NullBulk => "$" + IntText(-1) + CRLF
    case Many(items) => "*" + IntText(|items|) + CRLF + WireAll(items)
    case NullMany => "*" + IntText(-1) + CRLF
  }

  function WireAll(items: seq<Reply>): string
    decreases items, 1
  {
    if items == [] then "" else Wire(items[0]) + WireAll(items[1..])
  }

  /** Replies the format can express: one-line texts hold no CRLF, integers are 64-bit. */
  predicate WellFormed(r: Reply)
    decreases r, 0
  {
    match r
    case Simple(text) => CrlfFree(text)
    case Failure(text) => CrlfFree(text)
    case Integer(n) => IsInt64(n)
    case Bulk(text) => IsInt64(|text|)
    case NullBulk => true
    case Many(items) => IsInt64(|items|) && WellFormedAll(items)
    case NullMany => true
  }

  predicate WellFormedAll(items: seq<Reply>)
    decreases items, 1
  {
    items == [] || (WellFormed(items[0]) && WellFormedAll(items[1..]))
  }

  // The client's reading of a byte string

  const MAX_DEPTH: nat := 32
  const MAX_ITEMS: nat := 100_000

  /** The longest line and the longest bulk string that are accepted. */
  datatype Limits = Limits(line: int, bulk: int)

  datatype Outcome =
    | Done(value: Value, rest: string)
    | Failed(message: string)      // the server sent an error
    | Refused                      // malformed or over a limit
    | Starved                      // more bytes are needed

  datatype LineOutcome = Line(text: string, rest: string) | NoLine | LongLine

  function TakeLine(s: string, limit: int): LineOutcome {
    var end := FindCrlf(s);
    if end < 0 then NoLine
    else if end > limit then LongLine
    else Line(s[..end], s[end + 2..])
  }

  function OfLine(line: LineOutcome): Outcome {
    match line
    case Line(text, rest) => Done(Str(text), rest)
    case NoLine => Starved
    case LongLine => Refused
  }

  function ReadInt(s: string, limit: int): (r: Outcome)
    ensures r.Done? ==> r.value.Int?
  {
    match OfLine(TakeLine(s, limit))
    case Done(Str(text), rest) =>
      (match ParseInt(text)
       case Some(n) => Done(Int(n), rest)
       case None => Refused)
    case other => other
  }

  function ReadBulk(s: string, limits: Limits): Outcome {
    match ReadInt(s, limits.line)
    case Done(Int(n), rest) =>
      if n == -1 then Done(Null, rest)
      else if n < 0 || n > limits.bulk then Refused
      else if |rest| < n + 2 then Starved
      else if rest[n..n + 2] != CRLF then Refused
      else Done(Str(rest[..n]), rest[n + 2..])
    case other => other
  }

  function Read(s: string, depth: nat, limits: Limits): Outcome
    decreases MAX_DEPTH + 1 - depth, 0
  {
    if depth > MAX_DEPTH then Refused
    else if s == "" then Starved
    else if s[0] == '+' then OfLine(TakeLine(s[1..], limits.line))
    else if s[0] == '-' then
      match TakeLine(s[1..], limits.line)
      case Line(text, _) => Failed(text)
      case NoLine => Starved
      case LongLine => Refused
    else if s[0] == ':' then ReadInt(s[1..], limits.line)
    else if s[0] == '$' then ReadBulk(s[1..], limits)
    else if s[0] == '*' then
      match ReadInt(s[1..], limits.line)
      case Done(Int(n), rest) =>
        if n == -1 then Done(Null, rest)
        else if n < 0 || n > MAX_ITEMS then Refused
        else ReadItems(rest, n, depth + 1, limits)
      case other => other
    else Refused
  }

  function ReadItems(s: string, count: nat, depth: nat, limits: Limits): (r: Outcome)
    ensures r.Done? ==> r.value.List?
    decreases MAX_DEPTH + 1 - depth, count + 1
  {
    if count == 0 then Done(List([]), s)
    else
      match Read(s, depth, limits)
      case Done(value, rest) => Prepend(value, ReadItems(rest, count - 1, depth, limits))
      case other => other
  }

  function Prepend(value: Value, tail: Outcome): Outcome { Join([value], tail) }

  /** The items read so far, in front of a reading of the remaining ones. */
  function Join(values: seq<Value>, tail: Outcome): Outcome {
    if tail.Done? && tail.value.List? then tail.(value := List(values + tail.value.items)) else tail
  }

  lemma JoinJoin(a: seq<Value>, b: seq<Value>, tail: Outcome)
    ensures Join(a, Join(b, tail)) == Join(a + b, tail)
    ensures Join([], tail) == tail
  {
    if tail.Done? && tail.value.List? {
      assert a + (b + tail.value.items) == a + b + tail.value.items;
      assert [] + tail.value.items == tail.value.items;
    }
  }

  // What a reply means to the client, independently of the reader

  function Meaning(r: Reply, rest: string): Outcome
    decreases r, 0
  {
    match r
    case Simple(text) => Done(Str(text), rest)
    case Failure(text) => Failed(text)
    case Integer(n) => Done(Int(n), rest)
    case Bulk(text) => Done(Str(text), rest)
    case NullBulk => Done(Null, rest)
    case Many(items) => MeaningAll(items, rest)
    case NullMany => Done(Null, rest)
  }

  function MeaningAll(items: seq<Reply>, rest: string): Outcome
    decreases items, 1
  {
    if items == [] then Done(List([]), rest)
    else
      match Meaning(items[0], rest)
      case Done(value, _) => Prepend(value, MeaningAll(items[1..], rest))
      case other => other
  }

  predicate Fits(r: Reply, depth: nat, limits: Limits)
    decreases r, 0
  {
    && depth <= MAX_DEPTH
    && match r
       case Simple(text) => |text| <= limits.line
       case Failure(text) => |text| <= limits.line
       case Integer(n) => |IntText(n)| <= limits.line
       case Bulk(text) => |IntText(|text|)| <= limits.line && |text| <= limits.bulk
       case NullBulk => |IntText(-1)| <= limits.line
       case Many(items) =>
         |IntText(|items|)| <= limits.line && |items| <= MAX_ITEMS && FitsAll(items, depth + 1, limits)
       case NullMany => |IntText(-1)| <= limits.line
  }

  /** Every item up to the first one with an error, which ends the reading, fits. */
  predicate FitsAll(items: seq<Reply>, depth: nat, limits: Limits)
    decreases items, 1
  {
    items != [] ==>
      Fits(items[0], depth, limits) && (Meaning(items[0], "").Failed? || FitsAll(items[1..], depth, limits))
  }

  lemma TakeLineOfLine(line: string, rest: string, limit: int)
    requires CrlfFree(line)
    ensures TakeLine(line + CRLF + rest, limit) == if |line| <= limit then Line(line, rest) else LongLine
  {
    FindCrlfAfterLine(line, rest);
    var s := line + CRLF + rest;
    assert s[..|line|] == line && s[|line| + 2..] == rest;
  }

  lemma ReadIntOfText(n: int, rest: string, limit: int)
    requires IsInt64(n)
    ensures ReadInt(IntText(n) + CRLF + rest, limit) == if |IntText(n)| <= limit then Done(Int(n), rest) else Refused
  {
    ParseIntText(n);
    TakeLineOfLine(IntText(n), rest, limit);
  }

  lemma ReadBulkOfText(text: string, rest: string, limits: Limits)
    requires IsInt64(|text|)
    ensures ReadBulk(IntText(|text|) + CRLF + (text + CRLF + rest), limits) ==
      if |IntText(|text|)| <= limits.line && |text| <= limits.bulk then Done(Str(text), rest) else Refused
  {
    hide ReadInt, IntText;
    var after := text + CRLF + rest;
    ReadIntOfText(|text|, after, limits.line);
    assert after[..|text|] == text && after[|text|..|text| + 2] == CRLF && after[|text| + 2..] == rest;
  }

  lemma ReadFlatWire(r: Reply, rest: string, depth: nat, limits: Limits)
    requires WellFormed(r) && !r.Many?
    ensures Read(Wire(r) + rest, depth, limits) == if Fits(r, depth, limits) then Meaning(r, rest) else Refused
  {
    hide ReadInt, TakeLine, IntText, ReadBulk;
    var s := Wire(r) + rest;
    match r
    case Simple(text) =>
      assert s[1..] == text + CRLF + rest;
      TakeLineOfLine(text, rest, limits.line);
    case Failure(text) =>
      assert s[1..] == text + CRLF + rest;
      TakeLineOfLine(text, rest, limits.line);
    case Integer(n) =>
      assert s[1..] == IntText(n) + CRLF + rest;
      ReadIntOfText(n, rest, limits.line);
    case Bulk(text) =>
      assert s[1..] == IntText(|text|) + CRLF + (text + CRLF + rest);
      ReadBulkOfText(text, rest, limits);
    case NullBulk =>
      assert s[1..] == IntText(-1) + CRLF + rest;
      ReadBulkOfNull(rest, limits);
    case NullMany =>
      assert s[1..] == IntText(-1) + CRLF + rest;
      ReadIntOfText(-1, rest, limits.line);
  }

  /** Reading a well-formed reply gives its meaning and leaves exactly the bytes after it, if
  and only if it is within the limits; otherwise it is refused. */
  lemma {:induction false} ReadWire(r: Reply, rest: string, depth: nat, limits: Limits)
    requires WellFormed(r)
    ensures Read(Wire(r) + rest, depth, limits) == if Fits(r, depth, limits) then Meaning(r, rest) else Refused
    decreases r, 0
  {
    hide ReadInt, TakeLine, IntText, ReadBulk;
    if !r.Many? {
      hide Read, Wire, Meaning, Fits;
      ReadFlatWire(r, rest, depth, limits);
    } else {
      var items := r.items;
      assert (Wire(r) + rest)[1..] == IntText(|items|) + CRLF + (WireAll(items) + rest);
      ReadIntOfText(|items|, WireAll(items) + rest, limits.line);
      ReadItemsWire(items, rest, depth + 1, limits);
    }
  }

  lemma ReadBulkOfNull(rest: string, limits: Limits)
    ensures ReadBulk(IntText(-1) + CRLF + rest, limits) ==
            if |IntText(-1)| <= limits.line then Done(Null, rest) else Refused
  {
    hide ReadInt, IntText;
    ReadIntOfText(-1, rest, limits.line);
  }

  lemma {:induction false} ReadItemsWire(items: seq<Reply>, rest: string, depth: nat, limits: Limits)
    requires WellFormedAll(items)
    ensures ReadItems(WireAll(items) + rest, |items|, depth, limits) ==
            if FitsAll(items, depth, limits) then MeaningAll(items, rest) else Refused
    decreases items, 1
  {
    if items == [] {
      assert WireAll(items) + rest == rest;
    } else {
      var after := WireAll(items[1..]) + rest;
      assert WireAll(items) + rest == Wire(items[0]) + after;
      ReadWire(items[0], after, depth, limits);
      MeaningIgnoresRest(items[0], after, rest);
      MeaningIgnoresRest(items[0], "", rest);
      ReadItemsWire(items[1..], rest, depth, limits);
    }
  }

  lemma {:induction false} MeaningIgnoresRest(r: Reply, a: string, b: string)
    ensures Meaning(r, a).Done? ==> Meaning(r, b) == Done(Meaning(r, a).value, b) && Meaning(r, a).rest == a
    ensures Meaning(r, a).Failed? ==> Meaning(r, b) == Meaning(r, a)
    ensures Meaning(r, a).Done? || Meaning(r, a).Failed?
    decreases r, 0
  {
    if r.Many? { MeaningAllIgnoresRest(r.items, a, b); }
  }

  lemma {:induction false} MeaningAllIgnoresRest(items: seq<Reply>, a: string, b: string)
    ensures MeaningAll(items, a).Done? ==>
      && MeaningAll(items, b) == Done(MeaningAll(items, a).value, b)
      && MeaningAll(items, a).rest == a && MeaningAll(items, a).value.List?
    ensures MeaningAll(items, a).Failed? ==> MeaningAll(items, b) == MeaningAll(items, a)
    ensures MeaningAll(items, a).Done? || MeaningAll(items, a).Failed?
    decreases items, 1
  {
    if items != [] {
      MeaningIgnoresRest(items[0], a, b);
      MeaningAllIgnoresRest(items[1..], a, b);
    }
  }

  // The meaning, as a relation

  /** The PHP value of a reply without an error: arrays item by item, at any depth. */
  predicate Denotes(r: Reply, v: Value)
    decreases r
  {
    match r
    case Simple(text) => v == Str(text)
    case Failure(_) => false
    case Integer(n) => v == Int(n)
    case Bulk(text) => v == Str(text)
    case NullBulk => v == Null
    case Many(items) =>
      v.List? && |v.items| == |items| && forall i :: 0 <= i < |items| ==> Denotes(items[i], v.items[i])
    case NullMany => v == Null
  }

  predicate HasError(r: Reply)
    decreases r
  {
    r.Failure? || (r.Many? && exists i :: 0 <= i < |r.items| && HasError(r.items[i]))
  }

  /** The first error in a reply, in the order of its bytes. */
  predicate FirstError(r: Reply, text: string)
    decreases r
  {
    match r
    case Failure(message) => message == text
    case Many(items) =>
      exists i :: 0 <= i < |items| && FirstError(items[i], text) && forall j :: 0 <= j < i ==> !HasError(items[j])
    case _ => false
  }

  predicate AllDenote(items: seq<Reply>, values: seq<Value>) {
    |values| == |items| && forall i :: 0 <= i < |items| ==> Denotes(items[i], values[i])
  }

  predicate AnyError(items: seq<Reply>) { exists i :: 0 <= i < |items| && HasError(items[i]) }

  predicate FirstErrorAmong(items: seq<Reply>, text: string) {
    exists i :: 0 <= i < |items| && FirstError(items[i], text) && forall j :: 0 <= j < i ==> !HasError(items[j])
  }

  lemma {:induction false} DenoteFromHead(items: seq<Reply>, values: seq<Value>)
    requires items != [] && values != []
    ensures AllDenote(items, values) <==> Denotes(items[0], values[0]) && AllDenote(items[1..], values[1..])
  {
    hide Denotes;
    assert forall i :: 0 < i < |items| ==> items[i] == items[1..][i - 1];
    assert forall i :: 0 < i < |values| ==> values[i] == values[1..][i - 1];
  }

  lemma {:induction false} ErrorFromHead(items: seq<Reply>, text: string)
    requires items != []
    ensures AnyError(items) <==> HasError(items[0]) || AnyError(items[1..])
    ensures
      FirstErrorAmong(items, text) <==>
      FirstError(items[0], text) || (!HasError(items[0]) && FirstErrorAmong(items[1..], text))
  {
    hide HasError, FirstError;
    var tail := items[1..];
    assert forall i :: 0 <= i < |tail| ==> tail[i] == items[i + 1];
    if i :| 0 <= i < |items| && FirstError(items[i], text) && forall j :: 0 <= j < i ==> !HasError(items[j]) {
      if i > 0 { assert FirstError(tail[i - 1], text); }
    }
    if i :| 0 <= i < |tail| && FirstError(tail[i], text) && forall j :: 0 <= j < i ==> !HasError(tail[j]) {
      assert FirstError(items[i + 1], text);
    }
    if i :| 0 < i < |items| && HasError(items[i]) { assert HasError(tail[i - 1]); }
  }

  lemma {:induction false} ItemsAreDenoted(items: seq<Reply>, v: Value, text: string, rest: string)
    ensures MeaningAll(items, rest) == Done(v, rest) <==> v.List? && AllDenote(items, v.items)
    ensures MeaningAll(items, rest) == Failed(text) <==> FirstErrorAmong(items, text)
    ensures AnyError(items) <==> MeaningAll(items, rest).Failed?
    decreases items, 1
  {
    MeaningAllIgnoresRest(items, rest, rest);
    if items != [] {
      var tail := items[1..];
      var values := if v.List? && v.items != [] then v.items else [Null];
      MeaningIgnoresRest(items[0], rest, rest);
      MeaningAllIgnoresRest(tail, rest, rest);
      MeaningIsDenoted(items[0], values[0], text, rest);
      ItemsAreDenoted(tail, List(values[1..]), text, rest);
      DenoteFromHead(items, values);
      ErrorFromHead(items, text);
      hide Denotes, HasError, FirstError, Meaning, AllDenote, AnyError, FirstErrorAmong;
      assert values == [values[0]] + values[1..];
    }
  }

  /** A reply means a value exactly when it denotes it, and fails exactly with its first error. */
  lemma {:induction false} MeaningIsDenoted(r: Reply, v: Value, text: string, rest: string)
    ensures Meaning(r, rest) == Done(v, rest) <==> Denotes(r, v)
    ensures Meaning(r, rest) == Failed(text) <==> FirstError(r, text)
    ensures HasError(r) <==> Meaning(r, rest).Failed?
    decreases r, 0
  {
    MeaningIgnoresRest(r, rest, rest);
    if r.Many? { ItemsAreDenoted(r.items, v, text, rest); }
  }

  // Bytes after a complete reply do not change its reading

  lemma TakeLineExtends(s: string, more: string, limit: int)
    ensures TakeLine(s, limit).Line? ==>
      TakeLine(s + more, limit) == Line(TakeLine(s, limit).text, TakeLine(s, limit).rest + more)
    ensures TakeLine(s, limit).LongLine? ==> TakeLine(s + more, limit).LongLine?
  {
    var end := FindCrlf(s);
    if end >= 0 {
      FindCrlfExtends(s, more);
      assert (s + more)[..end] == s[..end] && (s + more)[end + 2..] == s[end + 2..] + more;
    }
  }

  /** A reading that has come to an end stays the same with more bytes behind it. */
  ghost predicate Extends(a: Outcome, b: Outcome, more: string) {
    && (a.Done? ==> b == Done(a.value, a.rest + more))
    && (a.Failed? || a.Refused? ==> b == a)
  }

  lemma ReadIntExtends(s: string, more: string, limit: int)
    ensures Extends(ReadInt(s, limit), ReadInt(s + more, limit), more)
  {
    TakeLineExtends(s, more, limit);
  }

  lemma ReadBulkExtends(s: string, more: string, limits: Limits)
    ensures Extends(ReadBulk(s, limits), ReadBulk(s + more, limits), more)
  {
    hide ReadInt;
    ReadIntExtends(s, more, limits.line);
    if ReadBulk(s, limits).Done? {
      var rest, n := ReadInt(s, limits.line).rest, ReadInt(s, limits.line).value.number;
      if n != -1 {
        assert (rest + more)[..n] == rest[..n] && (rest + more)[n..n + 2] == rest[n..n + 2];
        assert (rest + more)[n + 2..] == rest[n + 2..] + more;
      }
    }
  }

  lemma {:induction false} ReadExtends(s: string, more: string, depth: nat, limits: Limits)
    ensures Extends(Read(s, depth, limits), Read(s + more, depth, limits), more)
    decreases MAX_DEPTH + 1 - depth, 0
  {
    hide ReadInt, TakeLine, ReadBulk;
    if depth <= MAX_DEPTH && s != "" {
      assert (s + more)[1..] == s[1..] + more;
      TakeLineExtends(s[1..], more, limits.line);
      ReadIntExtends(s[1..], more, limits.line);
      ReadBulkExtends(s[1..], more, limits);
      var count := ReadInt(s[1..], limits.line);
      if s[0] == '*' && count.Done? && count.value.Int? && count.value.number >= 0 {
        ReadItemsExtends(count.rest, more, count.value.number, depth + 1, limits);
      }
    }
  }

  lemma {:induction false} ReadItemsExtends(s: string, more: string, count: nat, depth: nat, limits: Limits)
    ensures Extends(ReadItems(s, count, depth, limits), ReadItems(s + more, count, depth, limits), more)
    decreases MAX_DEPTH + 1 - depth, count + 1
  {
    if count > 0 {
      ReadExtends(s, more, depth, limits);
      var first := Read(s, depth, limits);
      if first.Done? {
        ReadItemsExtends(first.rest, more, count - 1, depth, limits);
      }
    }
  }

  /** No reply is read before it is complete, and none is mistaken for another: whatever
  prefix of the stream has arrived, a value is read only if the whole first reply is
  there, it is that reply's value, and exactly its bytes are consumed; an error is reported
  only if it is that reply's error. */
  lemma ReadOfPrefix(r: Reply, later: string, arrived: string, depth: nat, limits: Limits)
    requires WellFormed(r) && arrived <= Wire(r) + later
    ensures Read(arrived, depth, limits).Done? ==>
      && Meaning(r, "") == Done(Read(arrived, depth, limits).value, "")
      && arrived == Wire(r) + Read(arrived, depth, limits).rest
    ensures Read(arrived, depth, limits).Failed? ==> Meaning(r, "") == Read(arrived, depth, limits)
  {
    hide Read, Wire, Fits, Meaning;
    var whole := Wire(r) + later;
    var more := whole[|arrived|..];
    assert arrived + more == whole;
    ReadExtends(arrived, more, depth, limits);
    ReadWire(r, later, depth, limits);
    MeaningIgnoresRest(r, later, "");
    if Read(arrived, depth, limits).Done? {
      var rest := Read(arrived, depth, limits).rest;
      assert rest + more == later;
      Associate(Wire(r), rest, more);
      DropTail(arrived, Wire(r) + rest, more);
    }
  }

  lemma DropTail(a: string, b: string, tail: string)
    requires a + tail == b + tail
    ensures a == b
  {
    assert a == (a + tail)[..|a + tail| - |tail|] && b == (b + tail)[..|b + tail| - |tail|];
  }

  // Wider limits accept the same readings

  predicate Within(a: Limits, b: Limits) { a.line <= b.line && a.bulk <= b.bulk }

  lemma ReadIntMonotone(s: string, a: int, b: int)
    requires a <= b
    ensures ReadInt(s, a).Done? ==> ReadInt(s, b) == ReadInt(s, a)
  {
  }

  lemma TakeLineMonotone(s: string, a: int, b: int)
    requires a <= b
    ensures TakeLine(s, a).Line? ==> TakeLine(s, b) == TakeLine(s, a)
  {
  }

  lemma ReadBulkMonotone(s: string, a: Limits, b: Limits)
    requires Within(a, b)
    ensures ReadBulk(s, a).Done? ==> ReadBulk(s, b) == ReadBulk(s, a)
    ensures !ReadBulk(s, a).Failed? && !ReadInt(s, a.line).Failed?
  {
    ReadIntMonotone(s, a.line, b.line);
  }

  lemma {:induction false} ReadMonotone(s: string, depth: nat, a: Limits, b: Limits)
    requires Within(a, b)
    ensures Read(s, depth, a).Done? || Read(s, depth, a).Failed? ==> Read(s, depth, b) == Read(s, depth, a)
    decreases MAX_DEPTH + 1 - depth, 0
  {
    hide ReadInt, TakeLine, ReadBulk, ReadItems;
    if depth <= MAX_DEPTH && s != "" {
      TakeLineMonotone(s[1..], a.line, b.line);
      ReadIntMonotone(s[1..], a.line, b.line);
      ReadBulkMonotone(s[1..], a, b);
      var count := ReadInt(s[1..], a.line);
      if s[0] == '*' && count.Done? && count.value.number >= 0 {
        ReadItemsMonotone(count.rest, count.value.number, depth + 1, a, b);
      }
    }
  }

  lemma {:induction false} ReadItemsMonotone(s: string, count: nat, depth: nat, a: Limits, b: Limits)
    requires Within(a, b)
    ensures ReadItems(s, count, depth, a).Done? || ReadItems(s, count, depth, a).Failed? ==>
              ReadItems(s, count, depth, b) == ReadItems(s, count, depth, a)
    decreases MAX_DEPTH + 1 - depth, count + 1
  {
    hide Read;
    if count > 0 {
      ReadMonotone(s, depth, a, b);
      var first := Read(s, depth, a);
      if first.Done? {
        ReadItemsMonotone(first.rest, count - 1, depth, a, b);
      }
    }
  }

  lemma IntTextImages()
    ensures IntText(-12) == "-12" && IntText(-1) == "-1" && IntText(0) == "0" && IntText(2) == "2" && IntText(5) == "5"
  {
    assert NatText(12) == NatText(1) + "2" == "12";
  }

  /** The format, on one reply of each kind. */
  lemma WireImages()
    ensures Wire(Simple("OK")) == "+OK\r\n" && Wire(Failure("ERR no")) == "-ERR no\r\n"
    ensures Wire(Integer(-12)) == ":-12\r\n" && Wire(Integer(0)) == ":0\r\n"
    ensures Wire(Bulk("hello")) == "$5\r\nhello\r\n" && Wire(NullBulk) == "$-1\r\n" && Wire(NullMany) == "*-1\r\n"
  {
    IntTextImages();
    hide IntText;
  }

  lemma ArrayImage()
    ensures Wire(Many([Integer(0), Simple("OK")])) == "*2\r\n:0\r\n+OK\r\n"
  {
    IntTextImages();
    WireImages();
    var first, second := Integer(0), Simple("OK");
    var items := [first, second];
    assert Wire(Many(items)) == "*" + IntText(|items|) + CRLF + WireAll(items);
    assert items[1..] == [second] && [second][1..] == [];
    assert WireAll([second]) == Wire(second) + WireAll([]) && WireAll([]) == "";
    assert WireAll(items) == Wire(first) + WireAll([second]);
    hide IntText, Wire, WireAll;
  }

  // Commands

  function Command(arguments: seq<string>): Reply { Many(Bulks(arguments)) }

  function Bulks(arguments: seq<string>): seq<Reply> {
    if arguments == [] then [] else [Bulk(arguments[0])] + Bulks(arguments[1..])
  }

  function Strings(arguments: seq<string>): seq<Value> {
    if arguments == [] then [] else [Str(arguments[0])] + Strings(arguments[1..])
  }

  lemma {:induction false} BulksMean(arguments: seq<string>, rest: string)
    ensures MeaningAll(Bulks(arguments), rest) == Done(List(Strings(arguments)), rest)
    ensures |Bulks(arguments)| == |arguments|
    ensures (forall a :: a in arguments ==> |a| <= INT_MAX) ==> WellFormedAll(Bulks(arguments))
  {
    if arguments != [] {
      BulksMean(arguments[1..], rest);
      assert Bulks(arguments)[1..] == Bulks(arguments[1..]);
    }
  }

  /** Reading an encoded command within the limits gives back its arguments. */
  lemma CommandRoundTrip(arguments: seq<string>, rest: string, limits: Limits)
    requires forall a :: a in arguments ==> |a| <= INT_MAX
    requires Fits(Command(arguments), 0, limits)
    ensures Read(Wire(Command(arguments)) + rest, 0, limits) == Done(List(Strings(arguments)), rest)
  {
    BulksMean(arguments, rest);
    ReadWire(Command(arguments), rest, 0, limits);
  }

  lemma {:induction false} WireAllAppend(a: seq<Reply>, b: seq<Reply>)
    ensures WireAll(a + b) == WireAll(a) + WireAll(b)
  {
    hide Wire;
    if a == [] {
      assert a + b == b;
    } else {
      WireAllAppend(a[1..], b);
      assert (a + b)[0] == a[0] && (a + b)[1..] == a[1..] + b;
      Associate(Wire(a[0]), WireAll(a[1..]), WireAll(b));
    }
  }

  lemma {:induction false} BulksAppend(a: seq<string>, b: seq<string>)
    ensures Bulks(a + b) == Bulks(a) + Bulks(b)
  {
    if a == [] {
      assert a + b == b;
    } else {
      BulksAppend(a[1..], b);
      assert (a + b)[1..] == a[1..] + b;
    }
  }

  lemma CommandTextGrows(arguments: seq<string>, argument: string)
    ensures WireAll(Bulks(arguments + [argument])) ==
      WireAll(Bulks(arguments)) + ArgumentText(argument)
  {
    hide IntText;
    BulksAppend(arguments, [argument]);
    assert Bulks([argument]) == [Bulk(argument)];
    WireAllAppend(Bulks(arguments), [Bulk(argument)]);
    assert WireAll([Bulk(argument)]) == Wire(Bulk(argument));
  }

  const MAX_ARGUMENT: nat := 512 * 1024 * 1024

  function ArgumentText(argument: string): string { "$" + IntText(|argument|) + CRLF + argument + CRLF }

  function ArgumentTexts(arguments: seq<string>): string {
    if arguments == [] then ""
    else ArgumentTexts(arguments[..|arguments| - 1]) + ArgumentText(arguments[|arguments| - 1])
  }

  lemma {:induction false} ArgumentTextsAreWire(arguments: seq<string>)
    ensures ArgumentTexts(arguments) == WireAll(Bulks(arguments))
  {
    hide ArgumentText;
    if arguments != [] {
      var front, last := arguments[..|arguments| - 1], arguments[|arguments| - 1];
      ArgumentTextsAreWire(front);
      CommandTextGrows(front, last);
      assert front + [last] == arguments;
    }
  }

  /** `encode` writes the command as an array of bulk strings. */
  method Encode(arguments: seq<string>) returns (encoded: Option<string>)
    ensures encoded.Some? <==> forall a :: a in arguments ==> |a| <= MAX_ARGUMENT
    ensures encoded.Some? ==> encoded.value == Wire(Command(arguments))
  {
    hide IntText, WireAll, Bulks, ArgumentText;
    var start := "*" + IntText(|arguments|) + CRLF;
    var text := start;
    for i := 0 to |arguments|
      invariant forall a :: a in arguments[..i] ==> |a| <= MAX_ARGUMENT
      invariant text == start + ArgumentTexts(arguments[..i])
    {
      if |arguments[i]| > MAX_ARGUMENT {
        return None;
      }
      assert arguments[..i + 1][..i] == arguments[..i];
      text := text + ArgumentText(arguments[i]);
    }
    assert arguments[..|arguments|] == arguments;
    ArgumentTextsAreWire(arguments);
    BulksMean(arguments, "");
    return Some(text);
  }
}
