/** The binary HTTP response exchanged between the PHP runtime and the native server. */
module ResponseCodec {
  import opened Text

  newtype byte = x: int | 0 <= x < 256
  type bytes = seq<byte>

  datatype Header = Header(name: bytes, values: seq<bytes>)
  datatype Response = Response(status: int, headers: seq<Header>, body: bytes, chunks: seq<bytes>)

  const LIMIT16: int := 0x1_0000
  const LIMIT32: int := 0x1_0000_0000

  // Encoding

  /** `pack('n', $n)`: the low 16 bits, big endian. */
  function Pack16(n: nat): (b: bytes)
    ensures |b| == 2
  {
    [(n / 256 % 256) as byte, (n % 256) as byte]
  }

  /** `pack('N', $n)`: the low 32 bits, big endian. */
  function Pack32(n: nat): (b: bytes)
    ensures |b| == 4
  {
    Pack16(n / LIMIT16) + Pack16(n)
  }

  function EncodeBlob(b: bytes): bytes { Pack32(|b|) + b }

  function EncodeEach<T>(encode: T -> bytes, items: seq<T>): bytes {
    if items == [] then [] else encode(items[0]) + EncodeEach(encode, items[1..])
  }

  function EncodeHeader(h: Header): bytes {
    Pack16(|h.name|) + h.name + Pack16(|h.values|) + EncodeEach(EncodeBlob, h.values)
  }

  function Layout(r: Response): bytes
    requires 0 <= r.status
  {
    Pack16(r.status) + Pack16(|r.headers|) + EncodeEach(EncodeHeader, r.headers)
    + EncodeBlob(r.body) + Pack32(|r.chunks|) + EncodeEach(EncodeBlob, r.chunks)
  }

  /** What `encodeHttpResponse` checks before it throws. */
  predicate Encodable(r: Response) {
    && 100 <= r.status <= 999
    && |r.headers| < LIMIT16
    && forall h :: h in r.headers ==> |h.name| < LIMIT16 && |h.values| < LIMIT16
  }

  function Encode(r: Response): Option<bytes> {
    if Encodable(r) then Some(Layout(r)) else None
  }

  predicate DistinctNames(headers: seq<Header>) {
    forall i, j :: 0 <= i < j < |headers| ==> headers[i].name != headers[j].name
  }

  predicate AllShort(blobs: seq<bytes>) { forall b :: b in blobs ==> |b| < LIMIT32 }

  predicate HeaderInRange(h: Header) {
    |h.name| < LIMIT16 && |h.values| < LIMIT16 && AllShort(h.values)
  }

  /** A response the wire format can carry: PHP arrays have distinct keys, and the
  32-bit length fields, which `pack` silently truncates, are wide enough. */
  predicate InRange(r: Response) {
    && Encodable(r)
    && DistinctNames(r.headers)
    && (forall h :: h in r.headers ==> HeaderInRange(h))
    && |r.body| < LIMIT32
    && |r.chunks| < LIMIT32
    && AllShort(r.chunks)
  }

  // Decoding, as functions from the bytes still to be read

  type Parser<T> = bytes -> Option<(T, bytes)>

  function Cut(n: nat, b: bytes): Option<(bytes, bytes)> {
    if n > |b| then None else Some((b[..n], b[n..]))
  }

  function Unpack16(b: bytes): Option<(nat, bytes)> {
    if |b| < 2 then None else Some((b[0] as nat * 256 + b[1] as nat, b[2..]))
  }

  function Unpack32(b: bytes): Option<(nat, bytes)> {
    match Unpack16(b)
    case None => None
    case Some((high, rest)) =>
      match Unpack16(rest)
      case None => None
      case Some((low, rest')) => Some((high * LIMIT16 + low, rest'))
  }

  function DecodeBlob(b: bytes): Option<(bytes, bytes)> {
    match Unpack32(b)
    case None => None
    case Some((n, rest)) => Cut(n, rest)
  }

  function DecodeEach<T>(parser: Parser<T>, n: nat, b: bytes): Option<(seq<T>, bytes)> {
    if n == 0 then Some(([], b))
    else
      match parser(b)
      case None => None
      case Some((item, rest)) =>
        match DecodeEach(parser, n - 1, rest)
        case None => None
        case Some((items, rest')) => Some(([item] + items, rest'))
  }

  function DecodeBlobs16(b: bytes): Option<(seq<bytes>, bytes)> {
    match Unpack16(b)
    case None => None
    case Some((n, rest)) => DecodeEach(DecodeBlob, n, rest)
  }

  function DecodeHeader(b: bytes): Option<(Header, bytes)> {
    match Unpack16(b)
    case None => None
    case Some((n, b1)) =>
      match Cut(n, b1)
      case None => None
      case Some((name, b2)) =>
        match DecodeBlobs16(b2)
        case None => None
        case Some((values, rest)) => Some((Header(name, values), rest))
  }

  /** `$headers[$name] = $values` on PHP's insertion-ordered array. */
  function Put(headers: seq<Header>, h: Header): seq<Header> {
    if headers == [] then [h]
    else if headers[0].name == h.name then [h] + headers[1..]
    else [headers[0]] + Put(headers[1..], h)
  }

  function PutAll(headers: seq<Header>, more: seq<Header>): seq<Header>
    decreases more
  {
    if more == [] then headers else PutAll(Put(headers, more[0]), more[1..])
  }

  function DecodeTail(status: nat, headers: seq<Header>, b: bytes): Option<(Response, bytes)> {
    match DecodeBlob(b)
    case None => None
    case Some((body, b1)) =>
      match Unpack32(b1)
      case None => None
      case Some((n, b2)) =>
        match DecodeEach(DecodeBlob, n, b2)
        case None => None
        case Some((chunks, rest)) => Some((Response(status, headers, body, chunks), rest))
  }

  /** The decoded response and the bytes left unread; `None` is the truncation error. */
  function Decode(b: bytes): Option<(Response, bytes)> {
    match Unpack16(b)
    case None => None
    case Some((status, b1)) =>
      match Unpack16(b1)
      case None => None
      case Some((n, b2)) =>
        match DecodeEach(DecodeHeader, n, b2)
        case None => None
        case Some((raw, b3)) => DecodeTail(status, PutAll([], raw), b3)
  }

  // Exactness: a parser reads back what an encoder wrote, and nothing less than all of it

  ghost predicate ReadsBack<T(!new)>(parser: Parser<T>, encoded: bytes, item: T) {
    && (forall rest :: parser(encoded + rest) == Some((item, rest)))
    && (forall k :: 0 <= k < |encoded| ==> parser(encoded[..k]) == None)
  }

  lemma Unpack16Wraps(n: nat, rest: bytes)
    ensures Unpack16(Pack16(n) + rest) == Some((n % LIMIT16, rest))
  {
    assert (Pack16(n) + rest)[2..] == rest;
    assert n / 256 % 256 * 256 + n % 256 == n % LIMIT16;
  }

  lemma ReadsBack16(n: nat)
    requires n < LIMIT16
    ensures ReadsBack(Unpack16, Pack16(n), n)
  {
    hide Pack16;
    forall rest: bytes ensures Unpack16(Pack16(n) + rest) == Some((n, rest)) {
      Unpack16Wraps(n, rest);
    }
  }

  lemma ReadsBack32(n: nat)
    requires n < LIMIT32
    ensures ReadsBack(Unpack32, Pack32(n), n)
  {
    hide Pack16, Unpack16;
    var high, low := Pack16(n / LIMIT16), Pack16(n);
    ReadsBack16(n / LIMIT16);
    forall rest: bytes ensures Unpack32(high + low + rest) == Some((n, rest)) {
      assert high + low + rest == high + (low + rest);
      Unpack16Wraps(n, rest);
    }
    forall k | 0 <= k < |high + low| ensures Unpack32((high + low)[..k]) == None {
      Short32((high + low)[..k]);
    }
  }

  lemma Short32(b: bytes)
    requires |b| < 4
    ensures Unpack32(b) == None
  {
  }

  lemma ReadsBackBlob(b: bytes)
    requires |b| < LIMIT32
    ensures ReadsBack(DecodeBlob, EncodeBlob(b), b)
  {
    var size := Pack32(|b|);
    ReadsBack32(|b|);
    hide Pack32, Unpack32;
    forall rest: bytes ensures DecodeBlob(EncodeBlob(b) + rest) == Some((b, rest)) {
      assert EncodeBlob(b) + rest == size + (b + rest);
      assert (b + rest)[..|b|] == b && (b + rest)[|b|..] == rest;
    }
    forall k | 0 <= k < |EncodeBlob(b)| ensures DecodeBlob(EncodeBlob(b)[..k]) == None {
      if k < 4 {
        assert EncodeBlob(b)[..k] == size[..k];
      } else {
        assert EncodeBlob(b)[..k] == size + b[..k - 4];
      }
    }
  }

  lemma {:induction false} EachReadsBack<T(!new)>(parser: Parser<T>, encode: T -> bytes, items: seq<T>, rest: bytes)
    requires forall x :: x in items ==> ReadsBack(parser, encode(x), x)
    ensures DecodeEach(parser, |items|, EncodeEach(encode, items) + rest) == Some((items, rest))
  {
    if items == [] {
      assert EncodeEach(encode, items) + rest == rest;
    } else {
      var head, tail := encode(items[0]), EncodeEach(encode, items[1..]);
      EachReadsBack(parser, encode, items[1..], rest);
      assert head + tail + rest == head + (tail + rest);
      assert ReadsBack(parser, head, items[0]);
      assert [items[0]] + items[1..] == items;
    }
  }

  lemma {:induction false} EachNeedsAll<T(!new)>(parser: Parser<T>, encode: T -> bytes, items: seq<T>, k: nat)
    requires forall x :: x in items ==> ReadsBack(parser, encode(x), x)
    requires k < |EncodeEach(encode, items)|
    ensures DecodeEach(parser, |items|, EncodeEach(encode, items)[..k]) == None
  {
    var head, tail := encode(items[0]), EncodeEach(encode, items[1..]);
    assert ReadsBack(parser, head, items[0]);
    if k < |head| {
      assert (head + tail)[..k] == head[..k];
    } else {
      EachNeedsAll(parser, encode, items[1..], k - |head|);
      assert (head + tail)[..k] == head + tail[..k - |head|];
    }
  }

  lemma BlobsReadBack(blobs: seq<bytes>)
    requires AllShort(blobs)
    ensures forall b :: b in blobs ==> ReadsBack(DecodeBlob, EncodeBlob(b), b)
  {
    forall b | b in blobs ensures ReadsBack(DecodeBlob, EncodeBlob(b), b) { ReadsBackBlob(b); }
  }

  lemma Blobs16ReadBack(blobs: seq<bytes>)
    requires |blobs| < LIMIT16 && AllShort(blobs)
    ensures ReadsBack(DecodeBlobs16, Pack16(|blobs|) + EncodeEach(EncodeBlob, blobs), blobs)
  {
    hide Pack16, Unpack16, EncodeEach, DecodeEach;
    var count, each := Pack16(|blobs|), EncodeEach(EncodeBlob, blobs);
    ReadsBack16(|blobs|);
    BlobsReadBack(blobs);
    forall rest ensures DecodeBlobs16(count + each + rest) == Some((blobs, rest)) {
      assert count + each + rest == count + (each + rest);
      EachReadsBack(DecodeBlob, EncodeBlob, blobs, rest);
    }
    forall k | 0 <= k < |count + each| ensures DecodeBlobs16((count + each)[..k]) == None {
      if k < 2 {
        assert (count + each)[..k] == count[..k];
      } else {
        assert (count + each)[..k] == count + each[..k - 2];
        EachNeedsAll(DecodeBlob, EncodeBlob, blobs, k - 2);
      }
    }
  }

  lemma ReadsBackHeader(h: Header)
    requires HeaderInRange(h)
    ensures ReadsBack(DecodeHeader, EncodeHeader(h), h)
  {
    hide Pack16, Unpack16, EncodeEach, DecodeEach, DecodeBlobs16;
    var size, values := Pack16(|h.name|), Pack16(|h.values|) + EncodeEach(EncodeBlob, h.values);
    var encoded := size + (h.name + values);
    assert EncodeHeader(h) == encoded;
    ReadsBack16(|h.name|);
    Blobs16ReadBack(h.values);
    forall rest ensures DecodeHeader(encoded + rest) == Some((h, rest)) {
      assert encoded + rest == size + (h.name + (values + rest));
      assert Cut(|h.name|, h.name + (values + rest)) == Some((h.name, values + rest));
    }
    forall k | 0 <= k < |encoded| ensures DecodeHeader(encoded[..k]) == None {
      if k < 2 {
        assert encoded[..k] == size[..k];
      } else {
        var cut := (h.name + values)[..k - 2];
        assert encoded[..k] == size + cut;
        if k - 2 >= |h.name| {
          assert cut == h.name + values[..k - 2 - |h.name|];
          assert Cut(|h.name|, cut) == Some((h.name, values[..k - 2 - |h.name|]));
        }
      }
    }
  }

  lemma HeadersReadBack(headers: seq<Header>)
    requires forall h :: h in headers ==> HeaderInRange(h)
    ensures forall h :: h in headers ==> ReadsBack(DecodeHeader, EncodeHeader(h), h)
  {
    forall h | h in headers ensures ReadsBack(DecodeHeader, EncodeHeader(h), h) { ReadsBackHeader(h); }
  }

  /** With distinct names, replaying the header insertions rebuilds the same ordered array. */
  lemma {:induction false} PutAppends(headers: seq<Header>, h: Header)
    requires forall g :: g in headers ==> g.name != h.name
    ensures Put(headers, h) == headers + [h]
  {
    if headers != [] {
      PutAppends(headers[1..], h);
    }
  }

  lemma {:induction false} PutAllAppends(headers: seq<Header>, more: seq<Header>)
    requires DistinctNames(headers + more)
    ensures PutAll(headers, more) == headers + more
    decreases more
  {
    if more == [] {
      assert headers + more == headers;
    } else {
      forall g | g in headers ensures g.name != more[0].name {
        var i :| 0 <= i < |headers| && headers[i] == g;
        assert (headers + more)[i] == g && (headers + more)[|headers|] == more[0];
      }
      PutAppends(headers, more[0]);
      assert headers + [more[0]] + more[1..] == headers + more;
      PutAllAppends(headers + [more[0]], more[1..]);
    }
  }

  function Tail(r: Response): bytes {
    EncodeBlob(r.body) + (Pack32(|r.chunks|) + EncodeEach(EncodeBlob, r.chunks))
  }

  lemma LayoutSplits(r: Response)
    requires 0 <= r.status
    ensures Layout(r) == Pack16(r.status) + (Pack16(|r.headers|) + (EncodeEach(EncodeHeader, r.headers) + Tail(r)))
  {
  }

  lemma TailReadsBack(r: Response, rest: bytes)
    requires InRange(r)
    ensures DecodeTail(r.status, r.headers, Tail(r) + rest) == Some((r, rest))
  {
    hide Pack32, Unpack32, EncodeEach, DecodeEach, EncodeBlob, DecodeBlob;
    var body, count, chunks := EncodeBlob(r.body), Pack32(|r.chunks|), EncodeEach(EncodeBlob, r.chunks);
    ReadsBackBlob(r.body);
    ReadsBack32(|r.chunks|);
    BlobsReadBack(r.chunks);
    EachReadsBack(DecodeBlob, EncodeBlob, r.chunks, rest);
    assert Tail(r) + rest == body + (count + (chunks + rest));
  }

  lemma TailNeedsAll(r: Response, k: nat)
    requires InRange(r) && k < |Tail(r)|
    ensures DecodeTail(r.status, r.headers, Tail(r)[..k]) == None
  {
    hide Pack32, Unpack32, EncodeEach, DecodeEach, EncodeBlob, DecodeBlob;
    var body, count, chunks := EncodeBlob(r.body), Pack32(|r.chunks|), EncodeEach(EncodeBlob, r.chunks);
    ReadsBackBlob(r.body);
    ReadsBack32(|r.chunks|);
    BlobsReadBack(r.chunks);
    if k < |body| {
      assert Tail(r)[..k] == body[..k];
    } else {
      var cut := (count + chunks)[..k - |body|];
      assert Tail(r)[..k] == body + cut;
      if |cut| < 4 {
        assert cut == count[..|cut|];
      } else {
        assert cut == count + chunks[..|cut| - 4];
        EachNeedsAll(DecodeBlob, EncodeBlob, r.chunks, |cut| - 4);
      }
    }
  }

  /** Round trip: decoding an encoded response returns it and consumes exactly the encoding. */
  lemma RoundTrip(r: Response, rest: bytes)
    requires InRange(r)
    ensures Encode(r).Some?
    ensures Decode(Encode(r).value + rest) == Some((r, rest))
  {
    hide Pack16, Unpack16, EncodeEach, DecodeEach, EncodeHeader, DecodeHeader, Tail, DecodeTail, PutAll;
    var status, count, headers := Pack16(r.status), Pack16(|r.headers|), EncodeEach(EncodeHeader, r.headers);
    LayoutSplits(r);
    assert Layout(r) + rest == status + (count + (headers + (Tail(r) + rest)));
    ReadsBack16(r.status);
    ReadsBack16(|r.headers|);
    HeadersReadBack(r.headers);
    EachReadsBack(DecodeHeader, EncodeHeader, r.headers, Tail(r) + rest);
    assert [] + r.headers == r.headers;
    PutAllAppends([], r.headers);
    TailReadsBack(r, rest);
  }

  /** Every strict prefix of an encoded response is rejected as truncated. */
  lemma StrictPrefixRejected(r: Response, k: nat)
    requires InRange(r) && k < |Layout(r)|
    ensures Decode(Layout(r)[..k]) == None
  {
    hide Pack16, EncodeEach, EncodeHeader, Tail, Decode, Layout;
    var headers := EncodeEach(EncodeHeader, r.headers);
    LayoutSplits(r);
    if k < 4 {
      CutInCounts(r, k);
    } else if k < 4 + |headers| {
      CutInHeaders(r, k - 4);
    } else {
      CutInTail(r, k - 4 - |headers|);
    }
  }

  lemma CutInCounts(r: Response, k: nat)
    requires InRange(r) && k < 4
    ensures Decode(Layout(r)[..k]) == None
  {
    hide Pack16, Unpack16, EncodeEach, EncodeHeader, Tail;
    LayoutSplits(r);
    ReadsBack16(r.status);
    ReadsBack16(|r.headers|);
    var status, count := Pack16(r.status), Pack16(|r.headers|);
    if k < 2 {
      assert Layout(r)[..k] == status[..k];
    } else {
      assert Layout(r)[..k] == status + count[..k - 2];
    }
  }

  /** What decoding comes to once the counts have been read. */
  lemma AfterCounts(r: Response, rest: bytes)
    requires InRange(r)
    ensures Decode(Pack16(r.status) + (Pack16(|r.headers|) + rest)) ==
            match DecodeEach(DecodeHeader, |r.headers|, rest)
            case None => None
            case Some((headers, tail)) => DecodeTail(r.status, PutAll([], headers), tail)
  {
    hide Pack16, Unpack16, DecodeEach, DecodeHeader, DecodeTail, PutAll;
    ReadsBack16(r.status);
    ReadsBack16(|r.headers|);
  }

  lemma CutInHeaders(r: Response, k: nat)
    requires InRange(r) && k < |EncodeEach(EncodeHeader, r.headers)|
    ensures Decode(Layout(r)[..4 + k]) == None
  {
    hide Pack16, EncodeEach, DecodeEach, EncodeHeader, DecodeHeader, Tail, Decode, Layout;
    var cut := EncodeEach(EncodeHeader, r.headers)[..k];
    LayoutSplits(r);
    assert Layout(r)[..4 + k] == Pack16(r.status) + (Pack16(|r.headers|) + cut);
    AfterCounts(r, cut);
    HeadersReadBack(r.headers);
    EachNeedsAll(DecodeHeader, EncodeHeader, r.headers, k);
  }

  lemma CutInTail(r: Response, k: nat)
    requires InRange(r) && k < |Tail(r)|
    ensures Decode(Layout(r)[..4 + |EncodeEach(EncodeHeader, r.headers)| + k]) == None
  {
    hide Pack16, EncodeEach, DecodeEach, EncodeHeader, DecodeHeader, Tail, DecodeTail, PutAll, Decode, Layout;
    var headers, cut := EncodeEach(EncodeHeader, r.headers), Tail(r)[..k];
    LayoutSplits(r);
    assert Layout(r)[..4 + |headers| + k] == Pack16(r.status) + (Pack16(|r.headers|) + (headers + cut));
    AfterCounts(r, headers + cut);
    HeadersReadBack(r.headers);
    EachReadsBack(DecodeHeader, EncodeHeader, r.headers, cut);
    assert [] + r.headers == r.headers;
    PutAllAppends([], r.headers);
    TailNeedsAll(r, k);
  }

  /** Integers are written with the most significant byte first. */
  lemma PackMeans(n: nat)
    requires n < LIMIT32
    ensures n < LIMIT16 ==> 256 * Pack16(n)[0] as int + Pack16(n)[1] as int == n
    ensures
      var b := Pack32(n);
      16777216 * b[0] as int + 65536 * b[1] as int + 256 * b[2] as int + b[3] as int == n
  {
  }

  /** The sections and their order, on one response. */
  lemma LayoutImage()
    ensures Layout(Response(200, [Header([0x61], [[0x62], [0x63, 0x64]])], [0x65], [[0x66]])) ==
            [0, 200, 0, 1]                                                  // status, one header
            + [0, 1, 0x61, 0, 2]                                            // its name, two values
            + [0, 0, 0, 1, 0x62, 0, 0, 0, 2, 0x63, 0x64]                    // each with its length
            + [0, 0, 0, 1, 0x65]                                            // the body
            + [0, 0, 0, 1, 0, 0, 0, 1, 0x66]                                // one chunk
  {
    var first, second: bytes, third: bytes := Header([0x61], [[0x62], [0x63, 0x64]]), [0x62], [0x63, 0x64];
    assert Pack16(200) == [0, 200] && Pack16(1) == [0, 1] && Pack16(2) == [0, 2];
    assert Pack32(1) == [0, 0, 0, 1] && Pack32(2) == [0, 0, 0, 2];
    EachOfTwo(EncodeBlob, second, third);
    EachOfOne(EncodeHeader, first);
    EachOfOne(EncodeBlob, [0x66]);
    hide Pack16, Pack32, EncodeEach;
  }

  lemma {:induction false} EachOfOne<T>(encode: T -> bytes, item: T)
    ensures EncodeEach(encode, [item]) == encode(item)
  {
    assert [item][1..] == [] && encode(item) + [] == encode(item);
  }

  lemma {:induction false} EachOfTwo<T>(encode: T -> bytes, first: T, second: T)
    ensures EncodeEach(encode, [first, second]) == encode(first) + encode(second)
  {
    assert [first, second][1..] == [second];
    EachOfOne(encode, second);
  }

  // Captured output

  /** The bytes of a string literal. */
  function Ascii(s: string): bytes {
    seq(|s|, i requires 0 <= i < |s| => (s[i] as int % 256) as byte)
  }

  const CONTENT_TYPE: bytes := Ascii("content-type")
  const PLAIN_TEXT: bytes := Ascii("text/plain; charset=utf-8")

  predicate HasHeader(headers: seq<Header>, name: bytes) {
    exists h :: h in headers && h.name == name
  }

  function WithContentType(headers: seq<Header>): seq<Header> {
    if HasHeader(headers, CONTENT_TYPE) then headers else headers + [Header(CONTENT_TYPE, [PLAIN_TEXT])]
  }

  /** `mergeCapturedOutput`: `None` when the decoder or the encoder throws. */
  function Merge(serialized: bytes, output: bytes): Option<bytes> {
    if output == [] then Some(serialized)
    else
      match Decode(serialized)
      case None => None
      case Some((r, _)) =>
        if r.body != [] || r.chunks != [] then Some(serialized)
        else Encode(r.(body := output, headers := WithContentType(r.headers)))
  }

  predicate Fillable(r: Response, output: bytes) {
    output != [] && r.body == [] && r.chunks == []
  }

  /** The headers with a plain-text content type behind them, unless they have one. */
  ghost function Typed(headers: seq<Header>): seq<Header> {
    if exists i :: 0 <= i < |headers| && headers[i].name == Ascii("content-type") then headers
    else headers + [Header(Ascii("content-type"), [Ascii("text/plain; charset=utf-8")])]
  }

  lemma TypedMeans(headers: seq<Header>)
    ensures WithContentType(headers) == Typed(headers)
  {
  }

  /** Merging captured output into an encoded response changes only an empty body and a
  missing content type. It throws exactly when the default content type would be the
  65536th header. */
  lemma MergeMeaning(r: Response, output: bytes)
    requires InRange(r)
    ensures !Fillable(r, output) ==> Merge(Layout(r), output) == Some(Layout(r))
    ensures Merge(Layout(r), output).None? <==>
      Fillable(r, output) && |r.headers| == LIMIT16 - 1 && !HasHeader(r.headers, CONTENT_TYPE)
    ensures Fillable(r, output) && Merge(Layout(r), output).Some? && |output| < LIMIT32 ==>
      Decode(Merge(Layout(r), output).value) == Some((Response(r.status, Typed(r.headers), output, []), []))
  {
    TypedMeans(r.headers);
    hide Decode, Layout, Pack16, Ascii, Typed;
    RoundTrip(r, []);
    assert Layout(r) + [] == Layout(r);
    if Fillable(r, output) {
      var merged := r.(body := output, headers := WithContentType(r.headers));
      assert forall h :: h in merged.headers ==> h in r.headers || h == Header(CONTENT_TYPE, [PLAIN_TEXT]);
      ContentTypeInRange();
      if |merged.headers| < LIMIT16 && |output| < LIMIT32 {
        assert InRange(merged);
        RoundTrip(merged, []);
        assert Layout(merged) + [] == Layout(merged);
      }
    }
  }

  lemma ContentTypeInRange()
    ensures HeaderInRange(Header(CONTENT_TYPE, [PLAIN_TEXT]))
  {
    assert |CONTENT_TYPE| == 12 && |PLAIN_TEXT| == 25;
  }

  // The source's loops

  lemma {:induction false} EncodeEachAppend<T>(encode: T -> bytes, items: seq<T>, item: T)
    ensures EncodeEach(encode, items + [item]) == EncodeEach(encode, items) + encode(item)
  {
    if items == [] {
      assert items + [item] == [item];
    } else {
      EncodeEachAppend(encode, items[1..], item);
      assert (items + [item])[1..] == items[1..] + [item];
    }
  }

  method AppendBlobs(prefix: bytes, blobs: seq<bytes>) returns (encoded: bytes)
    ensures encoded == prefix + EncodeEach(EncodeBlob, blobs)
  {
    encoded := prefix;
    for i := 0 to |blobs|
      invariant encoded == prefix + EncodeEach(EncodeBlob, blobs[..i])
    {
      EncodeEachAppend(EncodeBlob, blobs[..i], blobs[i]);
      assert blobs[..i] + [blobs[i]] == blobs[..i + 1];
      encoded := encoded + Pack32(|blobs[i]|) + blobs[i];
    }
    assert blobs[..|blobs|] == blobs;
  }

  lemma {:induction false} HeaderIsAppended(result: bytes, h: Header)
    ensures result + Pack16(|h.name|) + h.name + Pack16(|h.values|) + EncodeEach(EncodeBlob, h.values) ==
            result + EncodeHeader(h)
  {
    hide Pack16, EncodeEach;
  }

  method AppendHeaders(prefix: bytes, headers: seq<Header>) returns (encoded: Option<bytes>)
    ensures encoded.Some? <==> forall h :: h in headers ==> |h.name| < LIMIT16 && |h.values| < LIMIT16
    ensures encoded.Some? ==> encoded.value == prefix + EncodeEach(EncodeHeader, headers)
  {
    assert EncodeEach(EncodeHeader, headers[..0]) == [];
    hide Pack16, Pack32, EncodeEach, EncodeHeader;
    var result := prefix;
    for i := 0 to |headers|
      invariant result == prefix + EncodeEach(EncodeHeader, headers[..i])
      invariant forall h :: h in headers[..i] ==> |h.name| < LIMIT16 && |h.values| < LIMIT16
    {
      var h := headers[i];
      if |h.name| > 65535 || |h.values| > 65535 {
        return None;
      }
      EncodeEachAppend(EncodeHeader, headers[..i], h);
      assert headers[..i] + [h] == headers[..i + 1];
      var next := AppendBlobs(result + Pack16(|h.name|) + h.name + Pack16(|h.values|), h.values);
      HeaderIsAppended(result, h);
      Associate(prefix, EncodeEach(EncodeHeader, headers[..i]), EncodeHeader(h));
      result := next;
    }
    assert headers[..|headers|] == headers;
    return Some(result);
  }

  /** `encodeHttpResponse` builds the layout header by header and refuses, without
  output, exactly the responses that are not encodable. */
  method EncodeHttpResponse(r: Response) returns (result: Option<bytes>)
    ensures result == Encode(r)
  {
    hide Pack16, Pack32, EncodeEach;
    if r.status < 100 || r.status > 999 || |r.headers| > 65535 {
      return None;
    }
    var front := AppendHeaders(Pack16(r.status) + Pack16(|r.headers|), r.headers);
    if front.None? {
      return None;
    }
    var encoded := AppendBlobs(front.value + Pack32(|r.body|) + r.body + Pack32(|r.chunks|), r.chunks);
    assert encoded == Layout(r);
    return Some(encoded);
  }

  /** A partly finished repetition: `found` is decoded, `left` items remain in `rest`. */
  ghost predicate Continues<T>(parser: Parser<T>, count: nat, whole: bytes, found: seq<T>, left: nat, rest: bytes) {
    match DecodeEach(parser, left, rest)
    case None => DecodeEach(parser, count, whole) == None
    case Some((items, end)) => DecodeEach(parser, count, whole) == Some((found + items, end))
  }

  lemma ContinuesEnds<T>(parser: Parser<T>, count: nat, whole: bytes, found: seq<T>, rest: bytes)
    ensures Continues(parser, count, whole, [], count, whole)
    ensures Continues(parser, count, whole, found, 0, rest) ==> DecodeEach(parser, count, whole) == Some((found, rest))
  {
    assert found + [] == found;
    match DecodeEach(parser, count, whole)
    case None =>
    case Some((items, _)) => assert [] + items == items;
  }

  lemma ContinuesStep<T>(parser: Parser<T>, count: nat, whole: bytes, found: seq<T>, left: nat, rest: bytes)
    requires left > 0 && Continues(parser, count, whole, found, left, rest)
    ensures parser(rest).None? ==> DecodeEach(parser, count, whole) == None
    ensures parser(rest).Some? ==>
      Continues(parser, count, whole, found + [parser(rest).value.0], left - 1, parser(rest).value.1)
  {
    if parser(rest).Some? {
      var (item, next) := parser(rest).value;
      match DecodeEach(parser, left - 1, next)
      case None =>
      case Some((items, end)) => assert found + ([item] + items) == found + [item] + items;
    }
  }

  lemma {:induction false} PutAllSnoc(headers: seq<Header>, more: seq<Header>, h: Header)
    ensures PutAll(headers, more + [h]) == Put(PutAll(headers, more), h)
    decreases more
  {
    if more == [] {
      assert more + [h] == [h];
    } else {
      PutAllSnoc(Put(headers, more[0]), more[1..], h);
      assert (more + [h])[1..] == more[1..] + [h];
    }
  }

  /** The decoder's closures share one offset into the encoded response. */
  class Cursor {
    const encoded: bytes
    var offset: nat

    ghost predicate Valid() reads this { offset <= |encoded| }

    ghost function Rest(): bytes
      requires Valid()
      reads this
    {
      encoded[offset..]
    }

    constructor (encoded: bytes)
      ensures Valid() && Rest() == encoded
    {
      this.encoded := encoded;
      offset := 0;
    }

    method Take(length: nat) returns (value: Option<bytes>)
      requires Valid()
      modifies this
      ensures Valid()
      ensures value.None? ==> Cut(length, old(Rest())) == None
      ensures value.Some? ==> Cut(length, old(Rest())) == Some((value.value, Rest()))
    {
      if offset + length > |encoded| {
        return None;
      }
      assert encoded[offset..][..length] == encoded[offset..offset + length];
      value := Some(encoded[offset..offset + length]);
      offset := offset + length;
    }

    method U16() returns (value: Option<nat>)
      requires Valid()
      modifies this
      ensures Valid()
      ensures value.None? ==> Unpack16(old(Rest())) == None
      ensures value.Some? ==> Unpack16(old(Rest())) == Some((value.value, Rest()))
    {
      var taken := Take(2);
      if taken.None? {
        return None;
      }
      var b := taken.value;
      return Some(b[0] as nat * 256 + b[1] as nat);
    }

    method U32() returns (value: Option<nat>)
      requires Valid()
      modifies this
      ensures Valid()
      ensures value.None? ==> Unpack32(old(Rest())) == None
      ensures value.Some? ==> Unpack32(old(Rest())) == Some((value.value, Rest()))
    {
      var taken := Take(4);
      if taken.None? {
        return None;
      }
      var b := taken.value;
      return Some((b[0] as nat * 256 + b[1] as nat) * LIMIT16 + (b[2] as nat * 256 + b[3] as nat));
    }

    method Blob() returns (value: Option<bytes>)
      requires Valid()
      modifies this
      ensures Valid()
      ensures value.None? ==> DecodeBlob(old(Rest())) == None
      ensures value.Some? ==> DecodeBlob(old(Rest())) == Some((value.value, Rest()))
    {
      var n := U32();
      if n.None? {
        return None;
      }
      value := Take(n.value);
    }

    method Blobs(count: nat) returns (values: Option<seq<bytes>>)
      requires Valid()
      modifies this
      ensures Valid()
      ensures values.None? ==> DecodeEach(DecodeBlob, count, old(Rest())) == None
      ensures values.Some? ==> DecodeEach(DecodeBlob, count, old(Rest())) == Some((values.value, Rest()))
    {
      hide DecodeBlob;
      ContinuesEnds(DecodeBlob, count, Rest(), [], []);
      var found: seq<bytes> := [];
      for i := 0 to count
        invariant Valid()
        invariant Continues(DecodeBlob, count, old(Rest()), found, count - i, Rest())
      {
        ContinuesStep(DecodeBlob, count, old(Rest()), found, count - i, Rest());
        var value := Blob();
        if value.None? {
          return None;
        }
        found := found + [value.value];
      }
      ContinuesEnds(DecodeBlob, count, old(Rest()), found, Rest());
      return Some(found);
    }

    method Headers(count: nat) returns (headers: Option<seq<Header>>)
      requires Valid()
      modifies this
      ensures Valid()
      ensures headers.None? ==> DecodeEach(DecodeHeader, count, old(Rest())) == None
      ensures headers.Some? ==>
        exists raw ::
          DecodeEach(DecodeHeader, count, old(Rest())) == Some((raw, Rest())) && headers.value == PutAll([], raw)
    {
      hide DecodeHeader, Put;
      var found: seq<Header> := [];
      ghost var raw: seq<Header> := [];
      ContinuesEnds(DecodeHeader, count, Rest(), [], []);
      for i := 0 to count
        invariant Valid()
        invariant Continues(DecodeHeader, count, old(Rest()), raw, count - i, Rest())
        invariant found == PutAll([], raw)
      {
        ContinuesStep(DecodeHeader, count, old(Rest()), raw, count - i, Rest());
        var header := OneHeader();
        if header.None? {
          return None;
        }
        PutAllSnoc([], raw, header.value);
        found, raw := Put(found, header.value), raw + [header.value];
      }
      ContinuesEnds(DecodeHeader, count, old(Rest()), raw, Rest());
      return Some(found);
    }

    method OneHeader() returns (header: Option<Header>)
      requires Valid()
      modifies this
      ensures Valid()
      ensures header.None? ==> DecodeHeader(old(Rest())) == None
      ensures header.Some? ==> DecodeHeader(old(Rest())) == Some((header.value, Rest()))
    {
      hide Unpack16, DecodeEach, Cut;
      var length := U16();
      if length.None? {
        return None;
      }
      var name := Take(length.value);
      if name.None? {
        return None;
      }
      var valueCount := U16();
      if valueCount.None? {
        return None;
      }
      var values := Blobs(valueCount.value);
      if values.None? {
        return None;
      }
      return Some(Header(name.value, values.value));
    }
  }

  /** `decodeHttpResponse` fails exactly where the reference decoder does. */
  method DecodeHttpResponse(encoded: bytes) returns (result: Option<Response>)
    ensures result.None? ==> Decode(encoded) == None
    ensures result.Some? ==> Decode(encoded).Some? && Decode(encoded).value.0 == result.value
  {
    hide DecodeEach, DecodeBlob, DecodeHeader, Unpack16, Unpack32, PutAll;
    var cursor := new Cursor(encoded);
    var status := cursor.U16();
    if status.None? {
      return None;
    }
    var headerCount := cursor.U16();
    if headerCount.None? {
      return None;
    }
    var headers := cursor.Headers(headerCount.value);
    if headers.None? {
      return None;
    }
    var body := cursor.Blob();
    if body.None? {
      return None;
    }
    var chunkCount := cursor.U32();
    if chunkCount.None? {
      return None;
    }
    var chunks := cursor.Blobs(chunkCount.value);
    if chunks.None? {
      return None;
    }
    return Some(Response(status.value, headers.value, body.value, chunks.value));
  }
}
