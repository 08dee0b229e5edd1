/** Scanline reconstruction of 8-bit RGB and RGBA PNG images (section 9 of the W3C PNG
specification). */
module PngRows {
  import opened Text

  type Byte = x: int | 0 <= x < 256
  type Row = seq<Byte>

  function Abs(x: int): nat { if x < 0 then -x else x }

  function Paeth(left: int, above: int, upperLeft: int): int {
    var estimate := left + above - upperLeft;
    var leftDistance := Abs(estimate - left);
    var aboveDistance := Abs(estimate - above);
    var diagonalDistance := Abs(estimate - upperLeft);
    if leftDistance <= aboveDistance && leftDistance <= diagonalDistance then left
    else if aboveDistance <= diagonalDistance then above
    else upperLeft
  }

  /** `p` is nearest to the linear estimate among left, above and upper-left, and the first such. */
  predicate IsFirstNearest(p: int, left: int, above: int, upperLeft: int) {
    var estimate := left + above - upperLeft;
    var toLeft, toAbove, toCorner := Abs(estimate - left), Abs(estimate - above), Abs(estimate - upperLeft);
    || (p == left && toLeft <= toAbove && toLeft <= toCorner)
    || (p == above && toAbove < toLeft && toAbove <= toCorner)
    || (p == upperLeft && toCorner < toLeft && toCorner < toAbove)
  }

  lemma PaethIsFirstNearest(left: int, above: int, upperLeft: int)
    ensures IsFirstNearest(Paeth(left, above, upperLeft), left, above, upperLeft)
  {
  }

  /** What a filter subtracts: nothing, left, above, their average, or the Paeth predictor. */
  function Predict(kind: int, left: int, above: int, upperLeft: int): int
    requires 0 <= kind <= 4
  {
    if kind == 0 then 0
    else if kind == 1 then left
    else if kind == 2 then above
    else if kind == 3 then (left + above) / 2
    else Paeth(left, above, upperLeft)
  }

  function Behind(row: Row, i: int, channels: nat): int
    requires i < |row| + channels
  {
    if 0 <= i - channels then row[i - channels] else 0
  }

  function Prediction(kind: int, row: Row, previous: Row, channels: nat, i: nat): int
    requires 0 <= kind <= 4 && channels > 0 && i < |previous| && i <= |row|
  {
    Predict(kind, Behind(row, i, channels), previous[i], Behind(previous, i, channels))
  }

  /** The encoder's side: every byte minus its prediction, modulo 256. */
  function FilterRow(kind: int, row: Row, previous: Row, channels: nat): Row
    requires 0 <= kind <= 4 && channels > 0 && |row| == |previous|
  {
    seq(|row|, i requires 0 <= i < |row| => (row[i] - Prediction(kind, row, previous, channels, i)) % 256)
  }

  /** The decoder's side: the first `n` bytes of a row, each from the bytes before it. */
  function Rebuild(kind: int, encoded: Row, previous: Row, channels: nat, n: nat): (row: Row)
    requires 0 <= kind <= 4 && channels > 0 && |encoded| == |previous| && n <= |encoded|
    ensures |row| == n
  {
    if n == 0 then []
    else
      var front := Rebuild(kind, encoded, previous, channels, n - 1);
      front + [(encoded[n - 1] + Prediction(kind, front, previous, channels, n - 1)) % 256]
  }

  function RebuildRow(kind: int, encoded: Row, previous: Row, channels: nat): Row
    requires 0 <= kind <= 4 && channels > 0 && |encoded| == |previous|
  {
    Rebuild(kind, encoded, previous, channels, |encoded|)
  }

  lemma WholeTurns(x: Byte, turns: int)
    ensures (x + 256 * turns) % 256 == x
  {
  }

  lemma AddBack(x: Byte, p: int)
    ensures ((x - p) % 256 + p) % 256 == x
    ensures ((x + p) % 256 - p) % 256 == x
  {
    WholeTurns(x, -((x - p) / 256));
    WholeTurns(x, -((x + p) / 256));
  }

  lemma PredictionNeedsOnlyEarlierBytes(kind: int, row: Row, previous: Row, channels: nat, i: nat)
    requires 0 <= kind <= 4 && channels > 0 && i < |previous| && i <= |row|
    ensures Prediction(kind, row[..i], previous, channels, i) == Prediction(kind, row, previous, channels, i)
  {
  }

  lemma {:induction false} RebuildOfFilter(kind: int, row: Row, previous: Row, channels: nat, n: nat)
    requires 0 <= kind <= 4 && channels > 0 && |row| == |previous| && n <= |row|
    ensures Rebuild(kind, FilterRow(kind, row, previous, channels), previous, channels, n) == row[..n]
  {
    hide Prediction;
    if n > 0 {
      RebuildOfFilter(kind, row, previous, channels, n - 1);
      PredictionNeedsOnlyEarlierBytes(kind, row, previous, channels, n - 1);
      AddBack(row[n - 1], Prediction(kind, row, previous, channels, n - 1));
      assert row[..n] == row[..n - 1] + [row[n - 1]];
    }
  }

  lemma {:induction false} RebuildPrefix(kind: int, encoded: Row, previous: Row, channels: nat, i: nat, n: nat)
    requires 0 <= kind <= 4 && channels > 0 && |encoded| == |previous| && i < n <= |encoded|
    ensures Rebuild(kind, encoded, previous, channels, n)[..i] == Rebuild(kind, encoded, previous, channels, i)
    ensures Rebuild(kind, encoded, previous, channels, n)[i] ==
      (encoded[i] + Prediction(kind, Rebuild(kind, encoded, previous, channels, i), previous, channels, i)) % 256
  {
    hide Prediction;
    if i < n - 1 {
      RebuildPrefix(kind, encoded, previous, channels, i, n - 1);
    }
  }

  /** Filtering and reconstruction are inverse to each other, for every filter. */
  lemma RowRoundTrip(kind: int, row: Row, encoded: Row, previous: Row, channels: nat)
    requires 0 <= kind <= 4 && channels > 0 && |row| == |encoded| == |previous|
    ensures RebuildRow(kind, FilterRow(kind, row, previous, channels), previous, channels) == row
    ensures FilterRow(kind, RebuildRow(kind, encoded, previous, channels), previous, channels) == encoded
  {
    hide Prediction;
    RebuildOfFilter(kind, row, previous, channels, |row|);
    assert row[..|row|] == row;
    var rebuilt := RebuildRow(kind, encoded, previous, channels);
    forall i | 0 <= i < |encoded| ensures FilterRow(kind, rebuilt, previous, channels)[i] == encoded[i] {
      RebuildPrefix(kind, encoded, previous, channels, i, |encoded|);
      PredictionNeedsOnlyEarlierBytes(kind, rebuilt, previous, channels, i);
      AddBack(encoded[i], Prediction(kind, rebuilt, previous, channels, i));
    }
  }

  /** What the five filters add to an encoded byte, from its three neighbours. */
  predicate IsOffset(kind: int, p: int, left: int, above: int, upperLeft: int) {
    && (kind == 0 ==> p == 0)
    && (kind == 1 ==> p == left)
    && (kind == 2 ==> p == above)
    && (kind == 3 ==> 2 * p <= left + above < 2 * p + 2)
    && (kind == 4 ==> IsFirstNearest(p, left, above, upperLeft))
  }

  /** A rebuilt byte is the encoded one plus its filter's offset. Bytes left of the row are 0. */
  ghost predicate ByteIsRebuilt(kind: int, encoded: Row, row: Row, previous: Row, channels: nat, i: nat)
    requires |encoded| == |row| == |previous| && i < |row|
  {
    var left: int := if i < channels then 0 else row[i - channels];
    var upperLeft: int := if i < channels then 0 else previous[i - channels];
    exists p: int :: IsOffset(kind, p, left, previous[i], upperLeft) && row[i] == (encoded[i] as int + p) % 256
  }

  lemma OffsetIsPredicted(kind: int, row: Row, previous: Row, channels: nat, i: nat)
    requires 0 <= kind <= 4 && channels > 0 && |row| == |previous| && i < |row|
    ensures
      var left: int := if i < channels then 0 else row[i - channels];
      var upperLeft: int := if i < channels then 0 else previous[i - channels];
      IsOffset(kind, Prediction(kind, row, previous, channels, i), left, previous[i], upperLeft)
  {
    hide Paeth, IsFirstNearest;
    PaethIsFirstNearest(Behind(row, i, channels), previous[i], Behind(previous, i, channels));
  }

  lemma OffsetRebuilds(kind: int, encoded: Row, row: Row, previous: Row, channels: nat, i: nat, p: int)
    requires |encoded| == |row| == |previous| && i < |row|
    requires
      var left: int := if i < channels then 0 else row[i - channels];
      var upperLeft: int := if i < channels then 0 else previous[i - channels];
      IsOffset(kind, p, left, previous[i], upperLeft)
    requires row[i] == (encoded[i] as int + p) % 256
    ensures ByteIsRebuilt(kind, encoded, row, previous, channels, i)
  {
    hide IsOffset;
  }

  lemma FiltersMean(kind: int, encoded: Row, previous: Row, channels: nat, i: nat)
    requires 0 <= kind <= 4 && channels > 0 && |encoded| == |previous| && i < |encoded|
    ensures |RebuildRow(kind, encoded, previous, channels)| == |encoded|
    ensures ByteIsRebuilt(kind, encoded, RebuildRow(kind, encoded, previous, channels), previous, channels, i)
  {
    var row := RebuildRow(kind, encoded, previous, channels);
    RebuildPrefix(kind, encoded, previous, channels, i, |encoded|);
    hide Rebuild, Prediction, IsOffset, ByteIsRebuilt;
    PredictionNeedsOnlyEarlierBytes(kind, row, previous, channels, i);
    OffsetIsPredicted(kind, row, previous, channels, i);
    var p := Prediction(kind, row, previous, channels, i);
    assert row[..i] == Rebuild(kind, encoded, previous, channels, i);
    assert row[i] == (encoded[i] as int + p) % 256;
    OffsetRebuilds(kind, encoded, row, previous, channels, i, p);
  }

  // Whole images

  predicate IsImage(rows: seq<Row>, stride: nat) { forall i :: 0 <= i < |rows| ==> |rows[i]| == stride }

  predicate AreKinds(kinds: seq<Byte>) { forall i :: 0 <= i < |kinds| ==> kinds[i] <= 4 }

  /** The pixel stream of an image, with any choice of filter for each row. */
  function Filtered(rows: seq<Row>, kinds: seq<Byte>, previous: Row, channels: nat): Row
    requires |rows| == |kinds| && IsImage(rows, |previous|) && AreKinds(kinds) && channels > 0
    decreases |rows|
  {
    if rows == [] then []
    else
      [kinds[0]] + FilterRow(kinds[0], rows[0], previous, channels)
      + Filtered(rows[1..], kinds[1..], rows[0], channels)
  }

  /** The decoded rows, or `None` for an unknown filter type. */
  function Defiltered(raw: Row, previous: Row, channels: nat): Option<seq<Row>>
    requires channels > 0
    decreases |raw|
  {
    if |raw| < 1 + |previous| then Some([])
    else if raw[0] > 4 then None
    else
      var row := RebuildRow(raw[0], raw[1..1 + |previous|], previous, channels);
      match Defiltered(raw[1 + |previous|..], row, channels)
      case None => None
      case Some(rows) => Some([row] + rows)
  }

  function Area(height: nat, length: nat): nat {
    if height == 0 then 0 else length + Area(height - 1, length)
  }

  ghost predicate AllRebuilt(kind: int, encoded: Row, row: Row, above: Row, channels: nat) {
    && |encoded| == |row| == |above|
    && forall i :: 0 <= i < |row| ==> ByteIsRebuilt(kind, encoded, row, above, channels, i)
  }

  /** Row `k` of the image behind a stream: its filter byte, and every byte rebuilt from its own
  row so far and the row above. */
  ghost predicate RowIsRebuilt(raw: Row, previous: Row, channels: nat, rows: seq<Row>, k: nat) {
    var n, at := |previous|, Area(k, 1 + |previous|);
    && k < |rows| && at + 1 + n <= |raw| && raw[at] <= 4
    && AllRebuilt(raw[at], raw[at + 1..at + 1 + n], rows[k], if k == 0 then previous else rows[k - 1], channels)
  }

  predicate FilterIsUnknown(raw: Row, n: nat, k: nat) { Area(k, 1 + n) < |raw| && raw[Area(k, 1 + n)] > 4 }

  lemma {:induction false} DefilteredFirst(raw: Row, previous: Row, channels: nat, height: nat)
    requires channels > 0 && height > 0 && |raw| == Area(height, 1 + |previous|)
    ensures |raw| == 1 + |previous| + Area(height - 1, 1 + |previous|)
    ensures raw[0] > 4 ==> Defiltered(raw, previous, channels).None? && FilterIsUnknown(raw, |previous|, 0)
    ensures raw[0] <= 4 ==>
      var row := RebuildRow(raw[0], raw[1..1 + |previous|], previous, channels);
      var later := Defiltered(raw[1 + |previous|..], row, channels);
      Defiltered(raw, previous, channels) == if later.None? then None else Some([row] + later.value)
  {
    hide RebuildRow;
  }

  /** A stream of `height` rows decodes to that many rows, each rebuilt from the one above, if
  and only if it holds no unknown filter byte. */
  lemma {:induction false} DefilteredRowsAreRebuilt(raw: Row, previous: Row, channels: nat, height: nat)
    requires channels > 0 && |raw| == Area(height, 1 + |previous|)
    ensures Defiltered(raw, previous, channels).Some? ==>
              var rows := Defiltered(raw, previous, channels).value;
              |rows| == height && forall k :: 0 <= k < height ==> RowIsRebuilt(raw, previous, channels, rows, k)
    ensures Defiltered(raw, previous, channels).None? ==>
              exists k :: 0 <= k < height && FilterIsUnknown(raw, |previous|, k)
    decreases height
  {
    if height > 0 {
      var n := |previous|;
      DefilteredFirst(raw, previous, channels, height);
      hide RebuildRow, AllRebuilt, Defiltered, Area, RowIsRebuilt, FilterIsUnknown;
      if raw[0] <= 4 {
        var row, rest := RebuildRow(raw[0], raw[1..1 + n], previous, channels), raw[1 + n..];
        FirstRowIsRebuilt(raw, previous, channels);
        DefilteredRowsAreRebuilt(rest, row, channels, height - 1);
        var later := Defiltered(rest, row, channels);
        if later.Some? {
          AllRowsAreRebuilt(raw, previous, channels, row, rest, later.value, [row] + later.value);
        } else {
          var k :| 0 <= k < height - 1 && FilterIsUnknown(rest, n, k);
          LaterFilterIsUnknown(raw, n, k);
        }
      }
    }
  }

  lemma AllRowsAreRebuilt(
      raw: Row, previous: Row, channels: nat, row: Row, rest: Row, later: seq<Row>, rows: seq<Row>)
    requires |row| == |previous| && |raw| >= 1 + |previous| && RowIsRebuilt(raw, previous, channels, [row], 0)
    requires rest == raw[1 + |previous|..] && rows == [row] + later
    requires forall k :: 0 <= k < |later| ==> RowIsRebuilt(rest, row, channels, later, k)
    ensures forall k :: 0 <= k < |rows| ==> RowIsRebuilt(raw, previous, channels, rows, k)
  {
    hide RowIsRebuilt;
    forall k | 0 <= k < |rows| ensures RowIsRebuilt(raw, previous, channels, rows, k) {
      if k == 0 {
        OnlyFirstRowMatters(raw, previous, channels, [row], later);
      } else {
        LaterRowIsRebuilt(raw, previous, channels, row, later, k - 1);
      }
    }
  }

  lemma FirstRowIsRebuilt(raw: Row, previous: Row, channels: nat)
    requires channels > 0 && |raw| >= 1 + |previous| && raw[0] <= 4
    ensures
      var row := RebuildRow(raw[0], raw[1..1 + |previous|], previous, channels);
      |row| == |previous| && RowIsRebuilt(raw, previous, channels, [row], 0)
  {
    var encoded := raw[1..1 + |previous|];
    var row := RebuildRow(raw[0], encoded, previous, channels);
    RebuildRowLength(raw[0], encoded, previous, channels);
    hide RebuildRow;
    forall i | 0 <= i < |previous| ensures ByteIsRebuilt(raw[0], encoded, row, previous, channels, i) {
      FiltersMean(raw[0], encoded, previous, channels, i);
    }
    hide ByteIsRebuilt;
  }

  lemma OnlyFirstRowMatters(raw: Row, previous: Row, channels: nat, rows: seq<Row>, later: seq<Row>)
    requires |rows| == 1 && RowIsRebuilt(raw, previous, channels, rows, 0)
    ensures RowIsRebuilt(raw, previous, channels, rows + later, 0)
  {
    hide AllRebuilt;
  }

  lemma LaterRowIsRebuilt(raw: Row, previous: Row, channels: nat, row: Row, later: seq<Row>, k: nat)
    requires |raw| >= 1 + |previous| && |row| == |previous| && k < |later|
    requires RowIsRebuilt(raw[1 + |previous|..], row, channels, later, k)
    ensures RowIsRebuilt(raw, previous, channels, [row] + later, k + 1)
  {
    hide AllRebuilt;
    var n, rest := |previous|, raw[1 + |previous|..];
    var at := Area(k, 1 + n);
    assert Area(k + 1, 1 + n) == 1 + n + at;
    hide Area;
    assert rest[at + 1..at + 1 + n] == raw[1 + n + at + 1..1 + n + at + 1 + n];
    assert rest[at] == raw[1 + n + at];
    var rows := [row] + later;
    assert rows[k + 1] == later[k] && rows[k] == if k == 0 then row else later[k - 1];
  }

  lemma LaterFilterIsUnknown(raw: Row, n: nat, k: nat)
    requires |raw| >= 1 + n && FilterIsUnknown(raw[1 + n..], n, k)
    ensures FilterIsUnknown(raw, n, k + 1)
  {
    assert Area(k + 1, 1 + n) == 1 + n + Area(k, 1 + n);
  }

  /** Decoding any filtered image recovers its bytes. */
  lemma {:induction false} DefilterInvertsFilter(rows: seq<Row>, kinds: seq<Byte>, previous: Row, channels: nat)
    requires |rows| == |kinds| && IsImage(rows, |previous|) && AreKinds(kinds) && channels > 0
    ensures Defiltered(Filtered(rows, kinds, previous, channels), previous, channels) == Some(rows)
    decreases |rows|
  {
    hide FilterRow, RebuildRow;
    if rows != [] {
      var n, raw := |previous|, Filtered(rows, kinds, previous, channels);
      var encoded := FilterRow(kinds[0], rows[0], previous, channels);
      var later := Filtered(rows[1..], kinds[1..], rows[0], channels);
      FilterRowLength(kinds[0], rows[0], previous, channels);
      assert raw[0] == kinds[0] && raw[1..1 + n] == encoded && raw[1 + n..] == later;
      RowRoundTrip(kinds[0], rows[0], encoded, previous, channels);
      DefilterInvertsFilter(rows[1..], kinds[1..], rows[0], channels);
      assert [rows[0]] + rows[1..] == rows;
    }
  }

  lemma FilterRowLength(kind: int, row: Row, previous: Row, channels: nat)
    requires 0 <= kind <= 4 && channels > 0 && |row| == |previous|
    ensures |FilterRow(kind, row, previous, channels)| == |row|
  {
  }

  // Visible pixels

  /** `n` bytes are a whole number of pixels. */
  predicate Whole(n: nat, channels: nat)
    requires channels > 0
  {
    n == 0 || (n >= channels && Whole(n - channels, channels))
  }

  datatype Pixel = Pixel(red: Byte, green: Byte, blue: Byte)

  /** The pixels of a row, leaving out the fully transparent ones. */
  function RowPixels(row: Row, channels: nat): seq<Pixel>
    requires channels == 3 || channels == 4
    decreases |row|
  {
    if |row| < channels then []
    else
      (if channels == 4 && row[3] == 0 then [] else [Pixel(row[0], row[1], row[2])])
      + RowPixels(row[channels..], channels)
  }

  function ImagePixels(rows: seq<Row>, channels: nat): seq<Pixel>
    requires channels == 3 || channels == 4
  {
    if rows == [] then [] else RowPixels(rows[0], channels) + ImagePixels(rows[1..], channels)
  }

  /** Without an alpha channel every pixel is kept. */
  lemma {:induction false} OpaqueRowsKeepEveryPixel(row: Row)
    ensures |RowPixels(row, 3)| == |row| / 3
    ensures forall i :: 0 <= i < |row| / 3 ==> RowPixels(row, 3)[i] == Pixel(row[3 * i], row[3 * i + 1], row[3 * i + 2])
    decreases |row|
  {
    if |row| >= 3 {
      var tail := row[3..];
      OpaqueRowsKeepEveryPixel(tail);
      forall i | 0 <= i < |row| / 3 ensures RowPixels(row, 3)[i] == Pixel(row[3 * i], row[3 * i + 1], row[3 * i + 2]) {
        if i > 0 {
          assert RowPixels(row, 3)[i] == RowPixels(tail, 3)[i - 1];
          assert tail[3 * (i - 1)] == row[3 * i];
        }
      }
    }
  }

  /** Pixel `n` of a row with an alpha byte can be seen, and this is it. */
  predicate Shows(row: Row, n: nat, pixel: Pixel) {
    4 * n + 3 < |row| && row[4 * n + 3] != 0 && pixel == Pixel(row[4 * n], row[4 * n + 1], row[4 * n + 2])
  }

  /** The pixels kept of the first `n` are all that are not fully transparent, in order. */
  ghost predicate AreVisible(row: Row, n: nat, pixels: seq<Pixel>, at: seq<nat>) {
    && 4 * n <= |row| && |at| == |pixels| && Ascending(at, 0, n)
    && (forall k :: 0 <= k < |at| ==> Shows(row, at[k], pixels[k]))
    && (forall i :: 0 <= i < n && i !in at ==> row[4 * i + 3] == 0)
  }

  lemma {:induction false} OneMorePixel(front: Row, last: Row)
    requires Whole(|front|, 4) && |last| == 4
    ensures RowPixels(front + last, 4) ==
            RowPixels(front, 4) + (if last[3] == 0 then [] else [Pixel(last[0], last[1], last[2])])
    decreases |front|
  {
    var all := front + last;
    if front == [] {
      assert all == last && last[4..] == [];
    } else {
      OneMorePixel(front[4..], last);
      assert all[4..] == front[4..] + last;
    }
  }

  lemma {:induction false} WholePixels(n: nat)
    ensures Whole(4 * n, 4)
  {
    if n > 0 { WholePixels(n - 1); }
  }

  lemma {:induction false} OneMoreVisible(row: Row, n: nat, pixels: seq<Pixel>, at: seq<nat>)
    requires 4 * n + 4 <= |row| && AreVisible(row, n, pixels, at)
    ensures row[4 * n + 3] == 0 ==> AreVisible(row, n + 1, pixels, at)
    ensures row[4 * n + 3] != 0 ==>
              AreVisible(row, n + 1, pixels + [Pixel(row[4 * n], row[4 * n + 1], row[4 * n + 2])], at + [n])
  {
    var grown := at + [n];
    assert forall k :: 0 <= k < |at| ==> grown[k] == at[k];
    assert forall i :: i in at ==> i in grown;
    assert grown[|at|] == n;
  }

  /** With an alpha channel, exactly the fully transparent pixels are left out. */
  lemma {:induction false} TransparentPixelsAreSkipped(row: Row, n: nat) returns (at: seq<nat>)
    requires 4 * n <= |row|
    ensures AreVisible(row, n, RowPixels(row[..4 * n], 4), at)
    decreases n
  {
    at := [];
    if n > 0 {
      var m := n - 1;
      at := TransparentPixelsAreSkipped(row, m);
      hide AreVisible, RowPixels;
      var front, last, before := row[..4 * m], row[4 * m..4 * n], RowPixels(row[..4 * m], 4);
      WholePixels(m);
      assert row[..4 * n] == front + last;
      OneMorePixel(front, last);
      OneMoreVisible(row, m, before, at);
      assert before + [] == before;
      if row[4 * m + 3] != 0 { at := at + [m]; }
    }
  }

  lemma {:induction false} ImagePixelsSnoc(rows: seq<Row>, row: Row, channels: nat)
    requires channels == 3 || channels == 4
    ensures ImagePixels(rows + [row], channels) == ImagePixels(rows, channels) + RowPixels(row, channels)
  {
    hide RowPixels;
    if rows == [] {
      assert rows + [row] == [row];
      assert ImagePixels([row][1..], channels) == [];
    } else {
      ImagePixelsSnoc(rows[1..], row, channels);
      assert (rows + [row])[1..] == rows[1..] + [row];
    }
  }

  // The source's loops

  method DefilterRow(kind: Byte, encoded: Row, previous: array<Byte>, channels: nat) returns (row: array<Byte>)
    requires kind <= 4 && channels > 0 && |encoded| == previous.Length
    ensures fresh(row) && row[..] == RebuildRow(kind, encoded, previous[..], channels)
    ensures row.Length == |encoded|
    ensures forall i :: 0 <= i < |encoded| ==> ByteIsRebuilt(kind, encoded, row[..], previous[..], channels, i)
  {
    row := new Byte[|encoded|](_ => 0);
    for index := 0 to |encoded|
      invariant row[..index] == Rebuild(kind, encoded, previous[..], channels, index)
    {
      var left := if index >= channels then row[index - channels] else 0;
      var above := previous[index];
      var upperLeft := if index >= channels then previous[index - channels] else 0;
      assert Prediction(kind, row[..index], previous[..], channels, index) == Predict(kind, left, above, upperLeft);
      row[index] := (encoded[index] + Predict(kind, left, above, upperLeft)) % 256;
    }
    assert row[..] == row[..|encoded|];
    forall i | 0 <= i < |encoded| ensures ByteIsRebuilt(kind, encoded, row[..], previous[..], channels, i) {
      FiltersMean(kind, encoded, previous[..], channels, i);
    }
  }

  lemma {:induction false} StrideIsWhole(width: nat, channels: nat)
    requires channels > 0
    ensures Whole(width * channels, channels)
  {
    if width > 0 {
      StrideIsWhole(width - 1, channels);
      assert width * channels == (width - 1) * channels + channels;
    }
  }

  lemma {:induction false} AreaIsProduct(height: nat, length: nat)
    ensures Area(height, length) == height * length
  {
    if height > 0 {
      AreaIsProduct(height - 1, length);
      assert height * length == (height - 1) * length + length;
    }
  }

  method AppendPixels(pixels: seq<Pixel>, row: array<Byte>, channels: nat) returns (result: seq<Pixel>)
    requires channels == 3 || channels == 4
    requires Whole(row.Length, channels)
    ensures result == pixels + RowPixels(row[..], channels)
  {
    result := pixels;
    var index := 0;
    assert row[..][0..] == row[..];
    while index < row.Length
      invariant 0 <= index <= row.Length && Whole(row.Length - index, channels)
      invariant result + RowPixels(row[..][index..], channels) == pixels + RowPixels(row[..], channels)
    {
      ghost var left := row[..][index..];
      assert left[channels..] == row[..][index + channels..];
      if !(channels == 4 && row[index + 3] == 0) {
        result := result + [Pixel(row[index], row[index + 1], row[index + 2])];
      }
      index := index + channels;
    }
  }

  function Prepended(rows: seq<Row>, later: Option<seq<Row>>): Option<seq<Row>> {
    if later.None? then None else Some(rows + later.value)
  }

  lemma DefilteredStep(raw: Row, previous: Row, channels: nat, done: seq<Row>)
    requires channels > 0 && |raw| >= 1 + |previous|
    ensures raw[0] > 4 ==> Defiltered(raw, previous, channels) == None
    ensures raw[0] <= 4 ==>
      var row := RebuildRow(raw[0], raw[1..1 + |previous|], previous, channels);
      Prepended(done, Defiltered(raw, previous, channels)) ==
        Prepended(done + [row], Defiltered(raw[1 + |previous|..], row, channels))
  {
    hide RebuildRow;
    if raw[0] <= 4 {
      var row := RebuildRow(raw[0], raw[1..1 + |previous|], previous, channels);
      var later := Defiltered(raw[1 + |previous|..], row, channels);
      if later.Some? { assert done + ([row] + later.value) == done + [row] + later.value; }
    }
  }

  function Zeros(n: nat): Row { seq(n, _ => 0) }

  lemma {:induction false} FilteredLength(rows: seq<Row>, kinds: seq<Byte>, previous: Row, channels: nat)
    requires |rows| == |kinds| && IsImage(rows, |previous|) && AreKinds(kinds) && channels > 0
    ensures |Filtered(rows, kinds, previous, channels)| == |rows| * (1 + |previous|)
    decreases |rows|
  {
    hide FilterRow;
    if rows != [] {
      FilterRowLength(kinds[0], rows[0], previous, channels);
      FilteredLength(rows[1..], kinds[1..], rows[0], channels);
      assert |rows| * (1 + |previous|) == (|rows| - 1) * (1 + |previous|) + (1 + |previous|);
    }
  }

  /** The rows of `decode_png` from a pixel stream of the announced size: the visible pixels of
  the defiltered rows, and so those of the image behind any choice of filters. */
  method DecodeRows(raw: Row, width: nat, height: nat, channels: nat) returns (pixels: Option<seq<Pixel>>)
    requires (channels == 3 || channels == 4) && width > 0
    requires |raw| == height * (1 + width * channels)
    ensures
      var rows := Defiltered(raw, Zeros(width * channels), channels);
      && (pixels.None? <==> rows.None?)
      && (pixels.Some? ==> pixels.value == ImagePixels(rows.value, channels))
    ensures forall rows, kinds |
              && |rows| == |kinds| && IsImage(rows, width * channels) && AreKinds(kinds)
              && raw == Filtered(rows, kinds, Zeros(width * channels), channels) ::
              pixels == Some(ImagePixels(rows, channels))
  {
    var stride := width * channels;
    StrideIsWhole(width, channels);
    AreaIsProduct(height, 1 + stride);
    pixels := DecodeStream(raw, height, stride, channels);
    hide Defiltered, Filtered, ImagePixels;
    forall rows, kinds |
      && |rows| == |kinds| && IsImage(rows, stride) && AreKinds(kinds)
      && raw == Filtered(rows, kinds, Zeros(stride), channels)
      ensures pixels == Some(ImagePixels(rows, channels))
    {
      DefilterInvertsFilter(rows, kinds, Zeros(stride), channels);
    }
  }

  method DecodeStream(raw: Row, height: nat, stride: nat, channels: nat) returns (pixels: Option<seq<Pixel>>)
    requires (channels == 3 || channels == 4) && Whole(stride, channels)
    requires |raw| == Area(height, 1 + stride)
    ensures
      var rows := Defiltered(raw, Zeros(stride), channels);
      && (pixels.None? <==> rows.None?)
      && (pixels.Some? ==> pixels.value == ImagePixels(rows.value, channels))
  {
    hide Defiltered, RebuildRow, RowPixels, ImagePixels, Whole;
    assert ImagePixels([], channels) == [] by { EmptyImage(channels); }
    var previous := new Byte[stride](_ => 0);
    ghost var zeros := Zeros(stride);
    ghost var done: seq<Row> := [];
    assert previous[..] == zeros;
    var cursor, found: seq<Pixel> := 0, [];
    assert raw[0..] == raw;
    PrependNothing(Defiltered(raw, zeros, channels));
    for i := 0 to height
      invariant 0 <= cursor <= |raw| && |raw| - cursor == Area(height - i, 1 + stride)
      invariant previous.Length == stride
      invariant Prepended(done, Defiltered(raw[cursor..], previous[..], channels)) == Defiltered(raw, zeros, channels)
      invariant found == ImagePixels(done, channels)
    {
      ghost var left := raw[cursor..];
      DefilteredStep(left, previous[..], channels, done);
      var kind := raw[cursor];
      var encoded := raw[cursor + 1..cursor + 1 + stride];
      assert left[0] == kind && left[1..1 + stride] == encoded && left[1 + stride..] == raw[cursor + 1 + stride..];
      cursor := cursor + 1 + stride;
      if kind > 4 {
        return None;
      }
      var row := DefilterRow(kind, encoded, previous, channels);
      RebuildRowLength(kind, encoded, previous[..], channels);
      ImagePixelsSnoc(done, row[..], channels);
      found := AppendPixels(found, row, channels);
      done := done + [row[..]];
      previous := row;
    }
    NothingLeft(raw[cursor..], previous[..], channels);
    assert done + [] == done;
    return Some(found);
  }

  lemma EmptyImage(channels: nat)
    requires channels == 3 || channels == 4
    ensures ImagePixels([], channels) == []
  {
  }

  lemma PrependNothing(rows: Option<seq<Row>>)
    ensures Prepended([], rows) == rows
  {
    if rows.Some? { assert [] + rows.value == rows.value; }
  }

  lemma NothingLeft(raw: Row, previous: Row, channels: nat)
    requires raw == [] && channels > 0
    ensures Defiltered(raw, previous, channels) == Some([])
  {
  }

  lemma RebuildRowLength(kind: int, encoded: Row, previous: Row, channels: nat)
    requires 0 <= kind <= 4 && channels > 0 && |encoded| == |previous|
    ensures |RebuildRow(kind, encoded, previous, channels)| == |encoded|
  {
  }
}
