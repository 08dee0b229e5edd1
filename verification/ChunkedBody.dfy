/** The HTTP client's decoder for the chunked transfer coding (section 7.1 of RFC 9112). */
module ChunkedBody {
  import opened Text

  // Chunk sizes

  predicate IsHexDigit(c: char) { '0' <= c <= '9' || 'a' <= c <= 'f' || 'A' <= c <= 'F' }

  function HexDigit(c: char): nat
    requires IsHexDigit(c)
  {
    if c <= '9' then c as int - '0' as int
    else if c <= 'F' then c as int - 'A' as int + 10
    else c as int - 'a' as int + 10
  }

  /** `ctype_xdigit` on a non-empty string. */
  predicate IsHex(s: string) { s != "" && forall i :: 0 <= i < |s| ==> IsHexDigit(s[i]) }

  function HexValue(s: string): nat
    requires forall i :: 0 <= i < |s| ==> IsHexDigit(s[i])
  {
    if s == "" then 0 else 16 * HexValue(s[..|s| - 1]) + HexDigit(s[|s| - 1])
  }

  /** A digit's value is its place among the sixteen, in either case. */
  lemma HexDigitMeans(c: char)
    requires IsHexDigit(c)
    ensures HexDigit(c) < 16 && c in ["0123456789abcdef"[HexDigit(c)], "0123456789ABCDEF"[HexDigit(c)]]
  {
  }

  /** The digit for a value, and the numeral for a number, in either case. */
  function HexChar(digit: nat, upper: bool): char
    requires digit < 16
  {
    (if upper then "0123456789ABCDEF" else "0123456789abcdef")[digit]
  }

  function HexText(n: nat, upper: bool): string {
    (if n < 16 then "" else HexText(n / 16, upper)) + [HexChar(n % 16, upper)]
  }

  lemma HexCharMeans(digit: nat, upper: bool)
    requires digit < 16
    ensures IsHexDigit(HexChar(digit, upper)) && HexDigit(HexChar(digit, upper)) == digit
  {
  }

  lemma {:induction false} HexValueSnoc(front: string, last: char)
    requires (forall i :: 0 <= i < |front| ==> IsHexDigit(front[i])) && IsHexDigit(last)
    ensures IsHex(front + [last]) && HexValue(front + [last]) == 16 * HexValue(front) + HexDigit(last)
  {
    assert (front + [last])[..|front|] == front;
  }

  /** A numeral is read as the number it stands for. */
  lemma {:induction false} HexValueOfText(n: nat, upper: bool)
    ensures IsHex(HexText(n, upper)) && HexValue(HexText(n, upper)) == n
  {
    HexCharMeans(n % 16, upper);
    assert HexValue("") == 0;
    if n < 16 {
      hide HexValue, HexDigit, HexChar;
      HexValueSnoc("", HexChar(n % 16, upper));
    } else {
      HexValueOfText(n / 16, upper);
      hide HexValue, HexDigit, HexChar;
      HexValueSnoc(HexText(n / 16, upper), HexChar(n % 16, upper));
    }
  }

  lemma {:induction false} LeadingZero(s: string)
    requires IsHex(s)
    ensures IsHex("0" + s) && HexValue("0" + s) == HexValue(s)
  {
    var all := "0" + s;
    if |s| == 1 {
      assert all[..1] == "0" && "0"[..0] == "" && s[..0] == "";
    } else {
      LeadingZero(s[..|s| - 1]);
      assert all[..|s|] == "0" + s[..|s| - 1];
    }
  }

  /** `explode(';', $line, 2)[0]` */
  function BeforeSemicolon(line: string): (r: string)
    ensures r <= line && ';' !in r && (|r| < |line| ==> line[|r|] == ';')
  {
    if line == "" || line[0] == ';' then "" else [line[0]] + BeforeSemicolon(line[1..])
  }

  // The coding

  datatype Head = Head(size: string, extension: string)
  datatype Chunk = Chunk(head: Head, data: string)
  datatype Coded = Coded(chunks: seq<Chunk>, last: Head, trailer: string)

  predicate ValidHead(h: Head, length: nat) {
    && IsHex(h.size) && HexValue(h.size) == length
    && (h.extension == "" || h.extension[0] == ';')
    && CrlfFree(h.size + h.extension)
  }

  predicate ValidChunk(c: Chunk) { 0 < |c.data| <= INT_MAX && ValidHead(c.head, |c.data|) }

  /** What the decoder accepts. It ignores everything behind the last chunk's line, so this is
  wider than section 7.1 of RFC 9112, which asks for trailer fields and a final CRLF there. */
  predicate Valid(m: Coded) {
    ValidHead(m.last, 0) && forall i :: 0 <= i < |m.chunks| ==> ValidChunk(m.chunks[i])
  }

  function HeadText(h: Head): string { h.size + h.extension + CRLF }

  function ChunkText(c: Chunk, rest: string): string { HeadText(c.head) + (c.data + CRLF + rest) }

  function Body(m: Coded): string
    decreases |m.chunks|
  {
    if m.chunks == [] then HeadText(m.last) + m.trailer
    else ChunkText(m.chunks[0], Body(m.(chunks := m.chunks[1..])))
  }

  function Data(chunks: seq<Chunk>): string {
    if chunks == [] then "" else chunks[0].data + Data(chunks[1..])
  }

  // The decoder, one chunk at a time

  datatype Next = Invalid | Last(head: Head, trailer: string) | Piece(chunk: Chunk, rest: string)

  function SplitLine(line: string): Head {
    var size := BeforeSemicolon(line);
    Head(size, line[|size|..])
  }

  /** One turn of the loop; a completed turn always moves forward. */
  function NextChunk(body: string): (next: Next)
    ensures next.Piece? ==> |next.rest| < |body|
  {
    var end := FindCrlf(body);
    if end < 0 then Invalid else AfterHead(SplitLine(body[..end]), body[end + 2..])
  }

  function AfterHead(head: Head, rest: string): (next: Next)
    ensures next.Piece? ==> |next.rest| < |rest|
  {
    if !IsHex(head.size) then Invalid
    else
      var size := HexValue(head.size);
      if size == 0 then Last(head, rest)
      else if size > INT_MAX || |rest| < size + 2 || rest[size..size + 2] != CRLF then Invalid
      else Piece(Chunk(head, rest[..size]), rest[size + 2..])
  }

  function Decode(body: string): Option<string>
    decreases |body|
  {
    match NextChunk(body)
    case Invalid => None
    case Last(_, _) => Some("")
    case Piece(chunk, rest) => Prefixed(chunk.data, Decode(rest))
  }

  function Prefixed(data: string, decoded: Option<string>): Option<string> {
    if decoded.None? then None else Some(data + decoded.value)
  }

  // Completeness

  lemma {:induction false} SizeEndsAtSemicolon(size: string, extension: string)
    requires ';' !in size && (extension == "" || extension[0] == ';')
    ensures BeforeSemicolon(size + extension) == size
  {
    if size == "" {
      assert size + extension == extension;
    } else {
      SizeEndsAtSemicolon(size[1..], extension);
      assert (size + extension)[1..] == size[1..] + extension;
    }
  }

  lemma NextChunkOfHead(h: Head, length: nat, rest: string)
    requires ValidHead(h, length)
    ensures NextChunk(HeadText(h) + rest) == AfterHead(h, rest)
  {
    hide AfterHead;
    var line := h.size + h.extension;
    var body := HeadText(h) + rest;
    assert body == line + CRLF + rest;
    FindCrlfAfterLine(line, rest);
    assert body[..|line|] == line && body[|line| + 2..] == rest;
    SizeEndsAtSemicolon(h.size, h.extension);
    assert line[|h.size|..] == h.extension;
  }

  lemma NextChunkOfChunk(c: Chunk, rest: string)
    requires ValidChunk(c)
    ensures NextChunk(ChunkText(c, rest)) == Piece(c, rest)
  {
    hide NextChunk, HeadText;
    var n, after := |c.data|, c.data + CRLF + rest;
    NextChunkOfHead(c.head, n, after);
    assert after[..n] == c.data && after[n..n + 2] == CRLF && after[n + 2..] == rest;
  }

  lemma {:induction false} DecodeOfBody(m: Coded)
    requires Valid(m)
    ensures Decode(Body(m)) == Some(Data(m.chunks))
    decreases |m.chunks|
  {
    hide NextChunk, HeadText, ChunkText;
    if m.chunks == [] {
      NextChunkOfHead(m.last, 0, m.trailer);
    } else {
      var tail := m.(chunks := m.chunks[1..]);
      NextChunkOfChunk(m.chunks[0], Body(tail));
      DecodeOfBody(tail);
    }
  }

  /** A size line, that many bytes and a line end put those bytes before the rest; a size line
  of zero ends the body. */
  lemma ChunkIsRead(size: string, extension: string, data: string, rest: string)
    requires IsHex(size) && HexValue(size) == |data| <= INT_MAX
    requires CrlfFree(size + extension) && (extension == "" || extension[0] == ';')
    ensures data == "" ==> Decode(size + extension + "\r\n" + rest) == Some("")
    ensures data != "" ==>
      var decoded := Decode(rest);
      Decode(size + extension + "\r\n" + (data + "\r\n" + rest)) ==
        if decoded.Some? then Some(data + decoded.value) else None
  {
    var head := Head(size, extension);
    if data == "" { NextChunkOfHead(head, 0, rest); } else { NextChunkOfChunk(Chunk(head, data), rest); }
  }

  // Soundness

  lemma LineIsFree(body: string)
    requires FindCrlf(body) >= 0
    ensures CrlfFree(body[..FindCrlf(body)])
  {
    var line := body[..FindCrlf(body)];
    forall i | 0 <= i < |line| ensures !CrlfAt(line, i) { assert !CrlfAt(body, i); }
  }

  lemma NextChunkIsAfterHead(body: string)
    requires !NextChunk(body).Invalid?
    ensures FindCrlf(body) >= 0
    ensures
      var end := FindCrlf(body);
      var head := SplitLine(body[..end]);
      && NextChunk(body) == AfterHead(head, body[end + 2..])
      && IsHex(head.size) && ValidHead(head, HexValue(head.size))
      && body == HeadText(head) + body[end + 2..]
  {
    var end := FindCrlf(body);
    var line := body[..end];
    var head := SplitLine(line);
    LineIsFree(body);
    assert head.size + head.extension == line;
    assert body == line + CRLF + body[end + 2..];
  }

  lemma NextChunkIsSound(body: string)
    ensures NextChunk(body).Last? ==>
      ValidHead(NextChunk(body).head, 0) && body == HeadText(NextChunk(body).head) + NextChunk(body).trailer
    ensures NextChunk(body).Piece? ==>
      ValidChunk(NextChunk(body).chunk) && body == ChunkText(NextChunk(body).chunk, NextChunk(body).rest)
  {
    if !NextChunk(body).Invalid? {
      NextChunkIsAfterHead(body);
      hide NextChunk, SplitLine, HeadText, CrlfFree;
      var rest := body[FindCrlf(body) + 2..];
      if NextChunk(body).Piece? {
        var n := |NextChunk(body).chunk.data|;
        assert rest == rest[..n] + CRLF + rest[n + 2..];
      }
    }
  }

  /** The message a decodable body is the coding of. */
  function Parse(body: string): Coded
    requires Decode(body).Some?
    decreases |body|
  {
    match NextChunk(body)
    case Last(head, trailer) => Coded([], head, trailer)
    case Piece(chunk, rest) => var m := Parse(rest); m.(chunks := [chunk] + m.chunks)
  }

  lemma {:induction false} ParseIsSound(body: string)
    requires Decode(body).Some?
    ensures Valid(Parse(body)) && Body(Parse(body)) == body && Data(Parse(body).chunks) == Decode(body).value
    decreases |body|
  {
    hide NextChunk, HeadText, ChunkText, ValidHead, ValidChunk;
    NextChunkIsSound(body);
    match NextChunk(body)
    case Last(_, _) =>
    case Piece(chunk, rest) =>
      ParseIsSound(rest);
      var m := Parse(rest);
      assert ([chunk] + m.chunks)[1..] == m.chunks;
      assert Parse(body).(chunks := m.chunks) == m;
  }

  /** The decoder succeeds exactly on the chunked codings, whatever the hex case, leading
  zeros, extensions and trailer, and returns the concatenation of the pieces. */
  lemma DecodesExactlyTheCodings(body: string, data: string)
    ensures Decode(body) == Some(data) <==> exists m :: Valid(m) && Body(m) == body && Data(m.chunks) == data
  {
    hide Decode;
    if Decode(body) == Some(data) {
      ParseIsSound(body);
    }
    forall m | Valid(m) && Body(m) == body && Data(m.chunks) == data ensures Decode(body) == Some(data) {
      DecodeOfBody(m);
    }
  }

  // The source's loop

  lemma FindFromOffset(body: string, offset: nat)
    requires offset <= |body|
    ensures FindCrlfFrom(body, offset) < 0 ==> FindCrlf(body[offset..]) < 0
    ensures FindCrlfFrom(body, offset) >= 0 ==> FindCrlf(body[offset..]) == FindCrlfFrom(body, offset) - offset
  {
    var tail := body[offset..];
    forall i | 0 <= i < |tail| ensures CrlfAt(tail, i) <==> CrlfAt(body, offset + i) {
    }
    var found, there := FindCrlf(tail), FindCrlfFrom(body, offset);
    if found >= 0 { assert CrlfAt(body, offset + found); }
    if there >= 0 { assert CrlfAt(tail, there - offset); }
  }

  method DataAt(body: string, start: nat, head: Head) returns (next: Next, offset: nat)
    requires start <= |body|
    ensures next == AfterHead(head, body[start..])
    ensures next.Piece? ==> start < offset <= |body| && next.rest == body[offset..]
  {
    hide HexValue;
    offset := start;
    if !IsHex(head.size) {
      return Invalid, offset;
    }
    var size := HexValue(head.size);
    if size == 0 {
      return Last(head, body[start..]), offset;
    }
    if size > INT_MAX || |body| < start + size + 2 {
      return Invalid, offset;
    }
    ghost var rest := body[start..];
    assert rest[..size] == body[start..start + size] && rest[size..size + 2] == body[start + size..start + size + 2];
    assert rest[size + 2..] == body[start + size + 2..];
    if body[start + size..start + size + 2] != CRLF {
      return Invalid, offset;
    }
    next := Piece(Chunk(head, body[start..start + size]), body[start + size + 2..]);
    offset := start + size + 2;
  }

  /** Reads the chunk that starts at an offset, as the loop body does. */
  method ChunkAt(body: string, start: nat) returns (next: Next, offset: nat)
    requires start <= |body|
    ensures next == NextChunk(body[start..])
    ensures next.Piece? ==> start < offset <= |body| && next.rest == body[offset..]
  {
    hide AfterHead, SplitLine;
    FindFromOffset(body, start);
    var lineEnd := FindCrlfFrom(body, start);
    if lineEnd < 0 {
      return Invalid, start;
    }
    ghost var left := body[start..];
    assert left[..lineEnd - start] == body[start..lineEnd] && left[lineEnd - start + 2..] == body[lineEnd + 2..];
    next, offset := DataAt(body, lineEnd + 2, SplitLine(body[start..lineEnd]));
  }

  method DecodeChunked(body: string) returns (result: Option<string>)
    ensures result == Decode(body)
  {
    hide NextChunk;
    var decoded, offset := "", 0;
    assert body[0..] == body;
    Assemble("", "", Decode(body));
    while true
      invariant 0 <= offset <= |body|
      invariant Decode(body) == Prefixed(decoded, Decode(body[offset..]))
      decreases |body| - offset
    {
      var next, after := ChunkAt(body, offset);
      match next {
        case Invalid =>
          return None;
        case Last(_, _) =>
          assert decoded + "" == decoded;
          return Some(decoded);
        case Piece(chunk, rest) =>
          Assemble(decoded, chunk.data, Decode(rest));
          decoded, offset := decoded + chunk.data, after;
      }
    }
  }

  lemma Assemble(a: string, b: string, rest: Option<string>)
    ensures Prefixed(a, Prefixed(b, rest)) == Prefixed(a + b, rest)
    ensures Prefixed("", rest) == rest
  {
    if rest.Some? {
      assert a + (b + rest.value) == a + b + rest.value;
      assert "" + rest.value == rest.value;
    }
  }
}
