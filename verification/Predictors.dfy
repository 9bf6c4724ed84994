/** The PNG and TIFF predictors of the Flate and LZW filters. Rows and columns are read off a flat
    byte index, as the code does. */
module Predictors {
  import opened Arithmetic
  import opened Bytes
  import opened Cos

  const U64 := 0x1_0000_0000_0000_0000

  // ---------------------------------------------------------------------------------------------
  // Geometry
  // ---------------------------------------------------------------------------------------------

  /** Bytes per row and bytes per pixel, in checked 64-bit arithmetic. */
  function Geometry(p: DecodeParams): Result<(nat, nat)> {
    if p.colors == 0 || p.bitsPerComponent == 0 || p.columns == 0 then
      Err(StreamDecode(InvalidPredictorGeometry))
    else
      var pixel: int := p.colors * p.bitsPerComponent;
      var row: int := pixel * p.columns;
      if pixel >= U64 || row >= U64 || row + 7 >= U64 || pixel + 7 >= U64 then Err(ArithmeticOverflow)
      else
        var rowBytes := (row + 7) / 8;
        var pixelBytes := (pixel + 7) / 8;
        Ok((rowBytes, if pixelBytes < 1 then 1 else pixelBytes))
  }

  /** The overflow errors of the geometry cannot happen, and rows are never empty. */
  lemma GeometryIsTotal(p: DecodeParams)
    ensures Geometry(p).Ok? <==> p.colors > 0 && p.bitsPerComponent > 0 && p.columns > 0
    ensures Geometry(p).Ok? ==>
              var (rowBytes, pixelBytes) := Geometry(p).value;
              && 1 <= pixelBytes <= rowBytes
              && 8 * (rowBytes - 1) < p.colors * p.bitsPerComponent * p.columns <= 8 * rowBytes
  {
    if p.colors > 0 && p.bitsPerComponent > 0 && p.columns > 0 {
      var pixel: int := p.colors * p.bitsPerComponent;
      var row: int := pixel * p.columns;
      assert 1 <= pixel <= 0xFFFF * 0xFFFF by {
        MulMonotonic(p.colors, p.bitsPerComponent, 0xFFFF);
        MulMonotonic(0xFFFF, p.colors, 0xFFFF);
        MulMonotonic(p.colors, 1, p.bitsPerComponent);
      }
      assert pixel <= row <= 0xFFFF * 0xFFFF * 0xFFFF_FFFF by {
        MulMonotonic(pixel, p.columns, 0xFFFF_FFFF);
        MulMonotonic(0xFFFF_FFFF, pixel, 0xFFFF * 0xFFFF);
        MulMonotonic(pixel, 1, p.columns);
      }
    }
  }

  /** A row and a pixel are the least whole numbers of bytes that hold their bits. */
  lemma GeometryIsLeast(p: DecodeParams)
    requires Geometry(p).Ok?
    ensures var (rowBytes, pixelBytes) := Geometry(p).value;
            && 8 * (rowBytes - 1) < p.colors * p.bitsPerComponent * p.columns <= 8 * rowBytes
            && 8 * (pixelBytes - 1) < p.colors * p.bitsPerComponent <= 8 * pixelBytes
  {
    GeometryIsTotal(p);
    MulMonotonic(p.colors, 1, p.bitsPerComponent);
  }

  // ---------------------------------------------------------------------------------------------
  // Paeth and the five filters of section 9 of ISO/IEC 15948
  // ---------------------------------------------------------------------------------------------

  function Abs(n: int): nat {
    if n < 0 then -n else n
  }

  function Paeth(left: byte, up: byte, upLeft: byte): byte {
    var estimate: int := left + up - upLeft;
    var leftDistance := Abs(estimate - left);
    var upDistance := Abs(estimate - up);
    var upLeftDistance := Abs(estimate - upLeft);
    if leftDistance <= upDistance && leftDistance <= upLeftDistance then left
    else if upDistance <= upLeftDistance then up
    else upLeft
  }

  /** Paeth is the neighbour closest to the estimate, the first of left, up, up-left on a tie. */
  lemma PaethIsFirstClosest(left: byte, up: byte, upLeft: byte)
    ensures var candidates: seq<byte> := [left, up, upLeft];
            var estimate: int := left + up - upLeft;
            exists k | 0 <= k < 3 ::
              && candidates[k] == Paeth(left, up, upLeft)
              && (forall j | 0 <= j < 3 :: Abs(estimate - candidates[k]) <= Abs(estimate - candidates[j]))
              && (forall j | 0 <= j < k :: Abs(estimate - candidates[k]) < Abs(estimate - candidates[j]))
  {
    var candidates: seq<byte> := [left, up, upLeft];
    var estimate: int := left + up - upLeft;
    var ld, ud, uld := Abs(estimate - left), Abs(estimate - up), Abs(estimate - upLeft);
    var k := if ld <= ud && ld <= uld then 0 else if ud <= uld then 1 else 2;
    assert candidates[k] == Paeth(left, up, upLeft);
  }

  function Predict(filter: byte, left: byte, up: byte, upLeft: byte): byte {
    if filter == 1 then left
    else if filter == 2 then up
    else if filter == 3 then
      var sum: int := left + up;
      sum / 2
    else if filter == 4 then Paeth(left, up, upLeft)
    else 0
  }

  /** Eight-bit addition that wraps around. */
  function AddBytes(a: byte, b: byte): byte {
    var sum: int := a + b;
    sum % 256
  }

  function PngPredictorValue(filter: byte, raw: byte, left: byte, up: byte, upLeft: byte): Result<byte> {
    if filter > 4 then Err(StreamDecode(InvalidPngFilter))
    else Ok(AddBytes(raw, Predict(filter, left, up, upLeft)))
  }

  // ---------------------------------------------------------------------------------------------
  // The PNG predictor, row by row
  // ---------------------------------------------------------------------------------------------

  function Zeros(n: nat): (r: seq<byte>)
    ensures |r| == n
    ensures forall k | 0 <= k < n :: r[k] == 0
  {
    seq(n, _ => 0)
  }

  /** The byte one pixel to the left in a row, zero in the first pixel. */
  function LeftIn(row: seq<byte>, pixel: nat, i: nat): byte
    requires i <= |row| && pixel > 0
  {
    if i >= pixel then row[i - pixel] else 0
  }

  /** The prediction for column `i` from the row so far and the row above. */
  function PredictAt(filter: byte, row: seq<byte>, prior: seq<byte>, pixel: nat, i: nat): byte
    requires i <= |row| && i < |prior| && pixel > 0
  {
    Predict(filter, LeftIn(row, pixel, i), prior[i], LeftIn(prior, pixel, i))
  }

  /** The first `n` bytes of a row, each from its filtered byte, the bytes before it and the row
      above. */
  function UnfilterRow(filter: byte, raw: seq<byte>, prior: seq<byte>, pixel: nat, n: nat): (row: seq<byte>)
    requires n <= |raw| == |prior| && pixel > 0
    ensures |row| == n
  {
    if n == 0 then []
    else
      var before := UnfilterRow(filter, raw, prior, pixel, n - 1);
      before + [AddBytes(raw[n - 1], PredictAt(filter, before, prior, pixel, n - 1))]
  }

  /** Whole filtered rows, each one filter byte and `rowBytes` bytes, below the row `prior`. */
  function Unfilter(bytes: seq<byte>, prior: seq<byte>, pixel: nat): Result<seq<byte>>
    requires pixel > 0 && prior != []
    decreases |bytes|
  {
    if |bytes| < |prior| + 1 then Ok([])
    else if bytes[0] > 4 then Err(StreamDecode(InvalidPngFilter))
    else
      var row := UnfilterRow(bytes[0], bytes[1..|prior| + 1], prior, pixel, |prior|);
      var below :- Unfilter(bytes[|prior| + 1..], row, pixel);
      Ok(row + below)
  }

  function UnPng(bytes: seq<byte>, p: DecodeParams, cap: nat): Result<seq<byte>> {
    if Geometry(p).Err? then Err(Geometry(p).error)
    else
      GeometryIsTotal(p);
      var (rowBytes, pixel) := Geometry(p).value;
      if |bytes| % (rowBytes + 1) != 0 then Err(StreamDecode(PredictorRowMismatch))
      else if |bytes| / (rowBytes + 1) * rowBytes > cap then Err(LimitExceeded(MaxStreamDecodeBytes))
      else Unfilter(bytes, Zeros(rowBytes), pixel)
  }

  lemma UnfilterNothing(filter: byte, raw: seq<byte>, prior: seq<byte>, pixel: nat)
    requires |raw| == |prior| && pixel > 0
    ensures UnfilterRow(filter, raw, prior, pixel, 0) == []
  {
  }

  lemma UnfilterNextByte(filter: byte, raw: seq<byte>, prior: seq<byte>, pixel: nat, n: nat)
    requires n < |raw| == |prior| && pixel > 0
    ensures var before := UnfilterRow(filter, raw, prior, pixel, n);
            UnfilterRow(filter, raw, prior, pixel, n + 1)
            == before + [AddBytes(raw[n], PredictAt(filter, before, prior, pixel, n))]
  {
  }

  /** `prior` is the row above the next one: the end of what is done, or zeros above the first row. */
  ghost predicate PriorRow(done: seq<byte>, prior: seq<byte>, firstRow: bool) {
    if firstRow then prior == Zeros(|prior|)
    else |done| >= |prior| && done[|done| - |prior|..] == prior
  }

  /** One row into the output at `start`, below the row `prior`; false when its filter byte is
      invalid. */
  method UnfilterRowInto(
      output: array<byte>, start: nat, filter: byte, encoded: seq<byte>, pixel: nat, firstRow: bool,
      ghost prior: seq<byte>)
    returns (ok: bool, ghost row: seq<byte>)
    requires pixel > 0 && 0 < |encoded| == |prior| && start + |encoded| <= output.Length
    requires PriorRow(output[..start], prior, firstRow)
    modifies output
    ensures ok <==> filter <= 4
    ensures row == UnfilterRow(filter, encoded, prior, pixel, |encoded|)
    ensures ok ==> output[..start + |encoded|] == old(output[..start]) + row
  {
    hide UnfilterRow, Predict, AddBytes;
    var rowBytes := |encoded|;
    row := UnfilterRow(filter, encoded, prior, pixel, rowBytes);
    UnfilterNothing(filter, encoded, prior, pixel);
    ghost var done := output[..start];
    var index := 0;
    while index < rowBytes
      invariant 0 <= index <= rowBytes
      invariant index > 0 ==> filter <= 4
      invariant output[..start] == done
      invariant output[start..start + index] == UnfilterRow(filter, encoded, prior, pixel, index)
    {
      ghost var before := output[start..start + index];
      var left := if index >= pixel then output[start + index - pixel] else 0;
      var up := if !firstRow then output[start + index - rowBytes] else 0;
      var upLeft := if !firstRow && index >= pixel then output[start + index - rowBytes - pixel] else 0;
      assert left == LeftIn(before, pixel, index);
      if !firstRow {
        assert output[start - rowBytes + index] == done[start - rowBytes + index];
        if index >= pixel {
          assert output[start - rowBytes + index - pixel] == done[start - rowBytes + index - pixel];
        }
      }
      assert up == prior[index] && upLeft == LeftIn(prior, pixel, index);
      UnfilterNextByte(filter, encoded, prior, pixel, index);
      var value := PngPredictorValue(filter, encoded[index], left, up, upLeft);
      if value.Err? {
        ok := false;
        return;
      }
      output[start + index] := value.value;
      index := index + 1;
      assert output[start..start + index] == before + [value.value];
    }
    Halves(output[..], start, start + rowBytes);
    ok := true;
  }

  lemma Halves(s: seq<byte>, i: nat, j: nat)
    requires i <= j <= |s|
    ensures s[..j] == s[..i] + s[i..j]
  {
  }

  method ApplyPngPredictor(bytes: seq<byte>, p: DecodeParams, cap: nat) returns (r: Result<seq<byte>>)
    ensures r == UnPng(bytes, p, cap)
    ensures r.Ok? ==> |r.value| <= cap
  {
    var geometry := Geometry(p);
    if geometry.Err? {
      return Err(geometry.error);
    }
    GeometryIsTotal(p);
    var (rowBytes, pixel) := geometry.value;
    var encodedRow := rowBytes + 1;
    if |bytes| % encodedRow != 0 {
      return Err(StreamDecode(PredictorRowMismatch));
    }
    var rows := |bytes| / encodedRow;
    var capacity := rows * rowBytes;
    if capacity > cap {
      return Err(LimitExceeded(MaxStreamDecodeBytes));
    }
    EncodedSize(|bytes|, rowBytes);
    r := UnfilterRows(bytes, rowBytes, rows, pixel);
  }

  /** The size of whole rows. */
  function RowsSize(rows: nat, rowBytes: nat): nat {
    rows * rowBytes
  }

  lemma EncodedSize(n: nat, rowBytes: nat)
    requires n % (rowBytes + 1) == 0
    ensures n == RowsSize(n / (rowBytes + 1), rowBytes) + n / (rowBytes + 1)
  {
    var rows := n / (rowBytes + 1);
    assert n == (rowBytes + 1) * rows + n % (rowBytes + 1);
    assert (rowBytes + 1) * rows == rows * rowBytes + rows;
  }

  lemma NextRow(row: nat, rows: nat, rowBytes: nat)
    requires row < rows
    ensures RowsSize(row, rowBytes) + rowBytes == RowsSize(row + 1, rowBytes) <= RowsSize(rows, rowBytes)
  {
    MulMonotonic(rowBytes, row + 1, rows);
  }

  /** The loop over rows, writing into one output buffer. */
  method UnfilterRows(bytes: seq<byte>, rowBytes: nat, rows: nat, pixel: nat) returns (r: Result<seq<byte>>)
    requires rowBytes > 0 && pixel > 0 && |bytes| == RowsSize(rows, rowBytes) + rows
    ensures r == Unfilter(bytes, Zeros(rowBytes), pixel)
    ensures r.Ok? ==> |r.value| == RowsSize(rows, rowBytes)
  {
    assert RowsSize(0, rowBytes) == 0;
    hide Unfilter, UnfilterRow, RowsDone, PriorRow, Zeros, RowsSize;
    var encodedRow := rowBytes + 1;
    var output := new byte[RowsSize(rows, rowBytes)](_ => 0);
    ghost var whole := Unfilter(bytes, Zeros(rowBytes), pixel);
    ghost var prior := Zeros(rowBytes);
    NoRowDone(whole, bytes, rowBytes, pixel);
    ghost var done: seq<byte> := [];
    var row, start, encodedStart := 0, 0, 0;
    while row < rows
      invariant 0 <= row <= rows && start == RowsSize(row, rowBytes) && encodedStart == start + row
      invariant 0 <= start <= output.Length && 0 <= encodedStart <= |bytes|
      invariant |prior| == rowBytes && done == output[..start]
      invariant RowsDone(whole, done, bytes, encodedStart, prior, pixel, row == 0)
    {
      NextRow(row, rows, rowBytes);
      var ok, unfiltered := UnfilterNextRow(
        output, start, bytes, encodedStart, rowBytes, pixel, row == 0, prior, whole, done);
      if !ok {
        return Err(StreamDecode(InvalidPngFilter));
      }
      assert done + unfiltered == output[..start + rowBytes];
      row, start, encodedStart := row + 1, start + rowBytes, encodedStart + encodedRow;
      prior, done := unfiltered, done + unfiltered;
    }
    AllRowsDone(whole, done, bytes, prior, pixel, row == 0);
    assert done == output[..];
    return Ok(output[..]);
  }

  /** One row of the loop: the filter byte and the row behind it. */
  method UnfilterNextRow(
      output: array<byte>, start: nat, bytes: seq<byte>, encodedStart: nat, rowBytes: nat, pixel: nat, firstRow: bool,
      ghost prior: seq<byte>, ghost whole: Result<seq<byte>>, ghost done: seq<byte>)
    returns (ok: bool, ghost row: seq<byte>)
    requires pixel > 0 && rowBytes == |prior| > 0
    requires start + rowBytes <= output.Length && encodedStart + rowBytes < |bytes|
    requires done == output[..start] && RowsDone(whole, done, bytes, encodedStart, prior, pixel, firstRow)
    modifies output
    ensures !ok ==> whole == Err(StreamDecode(InvalidPngFilter))
    ensures ok ==>
              && |row| == |prior| && output[..start + |prior|] == done + row
              && RowsDone(whole, done + row, bytes, encodedStart + (|prior| + 1), row, pixel, false)
  {
    hide UnfilterRow, RowsDone, PriorRow;
    var filter := bytes[encodedStart];
    var encoded := bytes[encodedStart + 1..encodedStart + (rowBytes + 1)];
    RowRead(whole, done, bytes, encodedStart, prior, pixel, firstRow, filter, encoded);
    ok, row := UnfilterRowInto(output, start, filter, encoded, pixel, firstRow, prior);
  }

  /** `done` has been written; the encoded rows from `encodedStart` on are still to come, below `prior`. */
  ghost predicate RowsDone(
      whole: Result<seq<byte>>, done: seq<byte>, bytes: seq<byte>, encodedStart: nat, prior: seq<byte>, pixel: nat,
      first: bool)
  {
    && encodedStart <= |bytes| && prior != [] && pixel > 0
    && PriorRow(done, prior, first)
    && Continues(whole, done, Unfilter(bytes[encodedStart..], prior, pixel))
  }

  lemma NoRowDone(whole: Result<seq<byte>>, bytes: seq<byte>, rowBytes: nat, pixel: nat)
    requires rowBytes > 0 && pixel > 0 && whole == Unfilter(bytes, Zeros(rowBytes), pixel)
    ensures RowsDone(whole, [], bytes, 0, Zeros(rowBytes), pixel, true)
  {
    hide Unfilter, Continues, PriorRow;
    PriorOfFirstRow([], rowBytes);
    assert bytes[0..] == bytes;
    ContinuesAtStart(whole);
  }

  lemma RowRead(
      whole: Result<seq<byte>>, done: seq<byte>, bytes: seq<byte>, encodedStart: nat, prior: seq<byte>, pixel: nat,
      first: bool, filter: byte, encoded: seq<byte>)
    requires RowsDone(whole, done, bytes, encodedStart, prior, pixel, first)
    requires encodedStart + |prior| < |bytes| && filter == bytes[encodedStart]
    requires encoded == bytes[encodedStart + 1..encodedStart + (|prior| + 1)]
    ensures PriorRow(done, prior, first)
    ensures filter > 4 ==> whole == Err(StreamDecode(InvalidPngFilter))
    ensures var row := UnfilterRow(filter, encoded, prior, pixel, |prior|);
            filter <= 4 ==> RowsDone(whole, done + row, bytes, encodedStart + (|prior| + 1), row, pixel, false)
  {
    hide Unfilter, UnfilterRow, Continues, PriorRow;
    SplitRow(bytes, encodedStart, |prior|);
    ContinuesPastRow(
      whole, done, bytes[encodedStart..], filter, encoded, bytes[encodedStart + (|prior| + 1)..], prior, pixel);
    PriorOfNextRow(done, UnfilterRow(filter, encoded, prior, pixel, |prior|));
  }

  lemma AllRowsDone(
      whole: Result<seq<byte>>, done: seq<byte>, bytes: seq<byte>, prior: seq<byte>, pixel: nat, first: bool)
    requires RowsDone(whole, done, bytes, |bytes|, prior, pixel, first)
    ensures whole == Ok(done)
  {
    hide Unfilter, Continues, PriorRow;
    assert bytes[|bytes|..] == [];
    ContinuesAtEnd(whole, done, prior, pixel);
  }

  lemma SplitRow(bytes: seq<byte>, start: nat, rowBytes: nat)
    requires start + rowBytes < |bytes|
    ensures bytes[start..]
         == [bytes[start]] + bytes[start + 1..start + (rowBytes + 1)] + bytes[start + (rowBytes + 1)..]
  {
  }

  lemma PriorOfFirstRow(done: seq<byte>, rowBytes: nat)
    ensures PriorRow(done, Zeros(rowBytes), true)
  {
  }

  lemma PriorOfNextRow(done: seq<byte>, row: seq<byte>)
    ensures PriorRow(done + row, row, false)
  {
  }

  /** One row of the whole job: an invalid filter ends it, otherwise it goes on below the row. */
  lemma ContinuesPastRow(
      whole: Result<seq<byte>>, done: seq<byte>, bytes: seq<byte>, filter: byte, encoded: seq<byte>,
      more: seq<byte>, prior: seq<byte>, pixel: nat)
    requires bytes == [filter] + encoded + more && |encoded| == |prior| > 0 && pixel > 0
    requires Continues(whole, done, Unfilter(bytes, prior, pixel))
    ensures filter > 4 ==> whole == Err(StreamDecode(InvalidPngFilter))
    ensures var row := UnfilterRow(filter, encoded, prior, pixel, |prior|);
            filter <= 4 ==> Continues(whole, done + row, Unfilter(more, row, pixel))
  {
    assert bytes[1..|prior| + 1] == encoded && bytes[|prior| + 1..] == more;
    if filter <= 4 {
      var row := UnfilterRow(filter, encoded, prior, pixel, |prior|);
      var rest := Unfilter(more, row, pixel);
      if rest.Ok? {
        assert done + (row + rest.value) == done + row + rest.value;
      }
    }
  }

  lemma ContinuesAtStart(whole: Result<seq<byte>>)
    ensures Continues(whole, [], whole)
  {
    if whole.Ok? {
      assert [] + whole.value == whole.value;
    }
  }

  lemma ContinuesAtEnd(whole: Result<seq<byte>>, done: seq<byte>, prior: seq<byte>, pixel: nat)
    requires prior != [] && pixel > 0 && Continues(whole, done, Unfilter([], prior, pixel))
    ensures whole == Ok(done)
  {
    assert done + [] == done;
  }

  /** `done` has been written and `rest` is what is left to write. */
  ghost predicate Continues(whole: Result<seq<byte>>, done: seq<byte>, rest: Result<seq<byte>>) {
    whole == if rest.Ok? then Ok(done + rest.value) else rest
  }

  // ---------------------------------------------------------------------------------------------
  // The PNG encoder
  // ---------------------------------------------------------------------------------------------

  /** The byte `pixel` places earlier; bytes outside the image count as zero. */
  function Earlier(row: seq<byte>, pixel: nat, i: nat): int
    requires i < |row| && pixel > 0
  {
    if i < pixel then 0 else row[i - pixel]
  }

  /** The candidate closest to a number, the first of several equally close ones. */
  function FirstClosest(candidates: seq<int>, to: int): int
    requires candidates != []
  {
    if |candidates| == 1 then candidates[0]
    else
      var later := FirstClosest(candidates[1..], to);
      if Distance(later, to) < Distance(candidates[0], to) then later else candidates[0]
  }

  function Distance(a: int, b: int): nat {
    if a <= b then b - a else a - b
  }

  /** What a filter expects of a byte, section 9.2 of ISO/IEC 15948, from `a` to the left, `b` above and `c`
      above `a`: nothing, the left, the above, half their sum rounded down, or the neighbour closest to
      `a + b - c`. */
  function Expected(filter: byte, a: int, b: int, c: int): int
    requires filter <= 4
  {
    match filter
    case 0 => 0
    case 1 => a
    case 2 => b
    case 3 => (a + b) / 2
    case _ => FirstClosest([a, b, c], a + b - c)
  }

  function FilterRow(filter: byte, row: seq<byte>, prior: seq<byte>, pixel: nat): (raw: seq<byte>)
    requires filter <= 4 && |row| == |prior| && pixel > 0
    ensures |raw| == |row|
  {
    seq(|row|, i requires 0 <= i < |row| =>
      (row[i] - Expected(filter, Earlier(row, pixel, i), prior[i], Earlier(prior, pixel, i))) % 256)
  }

  ghost predicate Rows(image: seq<seq<byte>>, rowBytes: nat) {
    forall k | 0 <= k < |image| :: |image[k]| == rowBytes
  }

  /** Every row minus its predictions, behind the filter byte chosen for it. */
  function Filter(image: seq<seq<byte>>, filters: seq<byte>, prior: seq<byte>, pixel: nat): seq<byte>
    requires Rows(image, |prior|) && |filters| == |image| && pixel > 0
    requires forall k | 0 <= k < |filters| :: filters[k] <= 4
    decreases image
  {
    if image == [] then []
    else
      [filters[0]] + FilterRow(filters[0], image[0], prior, pixel)
      + Filter(image[1..], filters[1..], image[0], pixel)
  }

  function Flatten(image: seq<seq<byte>>): seq<byte> {
    if image == [] then [] else image[0] + Flatten(image[1..])
  }

  lemma AddBack(original: byte, prediction: byte)
    ensures AddBytes((original - prediction) % 256, prediction) == original
  {
  }

  /** The decoder predicts what the encoder expected. */
  lemma PredictsExpected(filter: byte, a: byte, b: byte, c: byte)
    requires filter <= 4
    ensures Predict(filter, a, b, c) as int == Expected(filter, a, b, c)
  {
    var candidates: seq<int> := [a, b, c];
    assert candidates[1..] == [b, c] && candidates[1..][1..] == [c];
    var last := if Distance(c, a + b - c) < Distance(b, a + b - c) then c else b;
    assert FirstClosest([b, c], a + b - c) == last as int;
  }

  lemma {:induction false} UnfilterRowUndoesFilterRow(
      filter: byte, row: seq<byte>, prior: seq<byte>, pixel: nat, n: nat)
    requires filter <= 4 && n <= |row| == |prior| && pixel > 0
    ensures UnfilterRow(filter, FilterRow(filter, row, prior, pixel), prior, pixel, n) == row[..n]
  {
    hide UnfilterRow, Predict, Expected, AddBytes;
    if n == 0 {
      UnfilterNothing(filter, FilterRow(filter, row, prior, pixel), prior, pixel);
    } else {
      var prediction := PredictAt(filter, row, prior, pixel, n - 1);
      PredictsExpected(filter, LeftIn(row, pixel, n - 1), prior[n - 1], LeftIn(prior, pixel, n - 1));
      UnfilterRowUndoesFilterRow(filter, row, prior, pixel, n - 1);
      UnfilterNextByte(filter, FilterRow(filter, row, prior, pixel), prior, pixel, n - 1);
      assert PredictAt(filter, row[..n - 1], prior, pixel, n - 1) == prediction;
      AddBack(row[n - 1], prediction);
      assert row[..n] == row[..n - 1] + [row[n - 1]];
    }
  }

  lemma {:induction false} UnfilterUndoesFilter(
      image: seq<seq<byte>>, filters: seq<byte>, prior: seq<byte>, pixel: nat)
    requires Rows(image, |prior|) && |filters| == |image| && pixel > 0 && prior != []
    requires forall k | 0 <= k < |filters| :: filters[k] <= 4
    ensures Unfilter(Filter(image, filters, prior, pixel), prior, pixel) == Ok(Flatten(image))
    decreases image
  {
    if image != [] {
      var raw := FilterRow(filters[0], image[0], prior, pixel);
      var below := Filter(image[1..], filters[1..], image[0], pixel);
      var bytes := [filters[0]] + raw + below;
      assert bytes[1..|prior| + 1] == raw && bytes[|prior| + 1..] == below;
      UnfilterRowUndoesFilterRow(filters[0], image[0], prior, pixel, |prior|);
      assert image[0][..|prior|] == image[0];
      UnfilterUndoesFilter(image[1..], filters[1..], image[0], pixel);
    }
  }

  lemma {:induction false} FilteredLength(image: seq<seq<byte>>, filters: seq<byte>, prior: seq<byte>, pixel: nat)
    requires Rows(image, |prior|) && |filters| == |image| && pixel > 0
    requires forall k | 0 <= k < |filters| :: filters[k] <= 4
    ensures |Filter(image, filters, prior, pixel)| == (|prior| + 1) * |image|
    ensures |Flatten(image)| == |prior| * |image|
    decreases image
  {
    if image != [] {
      FilteredLength(image[1..], filters[1..], image[0], pixel);
      assert (|prior| + 1) * |image| == (|prior| + 1) * (|image| - 1) + |prior| + 1;
      assert |prior| * |image| == |prior| * (|image| - 1) + |prior|;
    }
  }

  /** Main result: whatever filter each row is given, the predictor restores the image. */
  lemma UnPngUndoesFilter(image: seq<seq<byte>>, filters: seq<byte>, p: DecodeParams, cap: nat)
    requires Geometry(p).Ok? && Geometry(p).value.1 > 0
    requires Rows(image, Geometry(p).value.0) && |filters| == |image|
    requires forall k | 0 <= k < |filters| :: filters[k] <= 4
    requires |Flatten(image)| <= cap
    ensures UnPng(Filter(image, filters, Zeros(Geometry(p).value.0), Geometry(p).value.1), p, cap)
         == Ok(Flatten(image))
  {
    hide Unfilter, Filter, Flatten;
    GeometryIsTotal(p);
    var (rowBytes, pixel) := Geometry(p).value;
    hide Geometry;
    var prior := Zeros(rowBytes);
    var bytes := Filter(image, filters, prior, pixel);
    FilteredLength(image, filters, prior, pixel);
    DivIs(|bytes|, rowBytes + 1, |image|, 0);
    UnfilterUndoesFilter(image, filters, prior, pixel);
  }

  // ---------------------------------------------------------------------------------------------
  // The TIFF predictor
  // ---------------------------------------------------------------------------------------------

  /** The first `n` bytes of a row after adding to each byte the byte one pixel to its left. */
  function UndifferenceRow(raw: seq<byte>, pixel: nat, n: nat): (row: seq<byte>)
    requires pixel > 0 && n <= |raw|
    ensures |row| == n
  {
    if n == 0 then []
    else
      var before := UndifferenceRow(raw, pixel, n - 1);
      before + [AddBytes(raw[n - 1], LeftIn(before, pixel, n - 1))]
  }

  function Undifference(bytes: seq<byte>, rowBytes: nat, pixel: nat): seq<byte>
    requires pixel > 0 && rowBytes > 0
    decreases |bytes|
  {
    if |bytes| < rowBytes then []
    else UndifferenceRow(bytes[..rowBytes], pixel, rowBytes) + Undifference(bytes[rowBytes..], rowBytes, pixel)
  }

  function UnTiff(bytes: seq<byte>, p: DecodeParams, cap: nat): Result<seq<byte>> {
    if |bytes| > cap then Err(LimitExceeded(MaxStreamDecodeBytes))
    else if Geometry(p).Err? then Err(Geometry(p).error)
    else
      GeometryIsTotal(p);
      var (rowBytes, pixel) := Geometry(p).value;
      if |bytes| % rowBytes != 0 then Err(StreamDecode(PredictorRowMismatch))
      else Ok(Undifference(bytes, rowBytes, pixel))
  }

  lemma FirstPixelIsKept(raw: seq<byte>, pixel: nat, n: nat)
    requires pixel > 0 && n <= |raw| && n <= pixel
    ensures UndifferenceRow(raw, pixel, n) == raw[..n]
  {
    if n > 0 {
      FirstPixelIsKept(raw, pixel, n - 1);
      assert raw[..n] == raw[..n - 1] + [raw[n - 1]];
    }
  }

  /** One row in place: every byte from the second pixel on gets the byte one pixel to its left. */
  method UndifferenceRowInPlace(a: array<byte>, start: nat, rowBytes: nat, pixel: nat)
    requires 0 < pixel <= rowBytes && start + rowBytes <= a.Length
    modifies a
    ensures a[..start] == old(a[..start])
    ensures a[start..start + rowBytes] == UndifferenceRow(old(a[start..start + rowBytes]), pixel, rowBytes)
    ensures a[start + rowBytes..] == old(a[start + rowBytes..])
  {
    ghost var raw := a[start..start + rowBytes];
    FirstPixelIsKept(raw, pixel, pixel);
    var index := pixel;
    while index < rowBytes
      invariant pixel <= index <= rowBytes
      invariant a[..start] == old(a[..start])
      invariant a[start..start + index] == UndifferenceRow(raw, pixel, index)
      invariant forall k | index <= k < rowBytes :: a[start + k] == raw[k]
      invariant a[start + rowBytes..] == old(a[start + rowBytes..])
    {
      ghost var before := a[start..start + index];
      var left := a[start + index - pixel];
      assert left == before[index - pixel] == LeftIn(before, pixel, index);
      NextUndifference(raw, pixel, index);
      var sum := AddBytes(a[start + index], left);
      a[start + index] := sum;
      index := index + 1;
      assert a[start..start + index] == before + [sum];
    }
    assert a[start..start + index] == a[start..start + rowBytes];
  }

  lemma NextUndifference(raw: seq<byte>, pixel: nat, index: nat)
    requires 0 < pixel <= index < |raw|
    ensures var before := UndifferenceRow(raw, pixel, index);
            UndifferenceRow(raw, pixel, index + 1) == before + [AddBytes(raw[index], LeftIn(before, pixel, index))]
  {
  }

  /** The in-place loop over rows. */
  method UndifferenceInPlace(a: array<byte>, rowBytes: nat, pixel: nat)
    requires 0 < pixel <= rowBytes && a.Length % rowBytes == 0
    modifies a
    ensures a[..] == Undifference(old(a[..]), rowBytes, pixel)
  {
    hide Undifference, UndifferenceRow;
    ghost var was := a[..];
    assert was[0..] == was;
    var start := 0;
    while start < a.Length
      invariant 0 <= start <= a.Length && start % rowBytes == 0
      invariant a[start..] == was[start..]
      invariant a[..start] + Undifference(was[start..], rowBytes, pixel) == Undifference(was, rowBytes, pixel)
      decreases a.Length - start
    {
      RowFits(start, a.Length, rowBytes);
      ghost var done, left := a[..start], was[start..];
      assert a[start..start + rowBytes] == left[..rowBytes];
      assert a[start + rowBytes..] == was[start + rowBytes..];
      UndifferenceRowInPlace(a, start, rowBytes, pixel);
      assert left[rowBytes..] == was[start + rowBytes..];
      UndifferenceFirstRow(left, rowBytes, pixel);
      assert a[..start + rowBytes] == done + UndifferenceRow(left[..rowBytes], pixel, rowBytes);
      start := start + rowBytes;
    }
    assert was[start..] == [];
    UndifferenceNothing(rowBytes, pixel);
    assert a[..start] + [] == a[..];
  }

  lemma UndifferenceFirstRow(bytes: seq<byte>, rowBytes: nat, pixel: nat)
    requires pixel > 0 && 0 < rowBytes <= |bytes|
    ensures Undifference(bytes, rowBytes, pixel)
         == UndifferenceRow(bytes[..rowBytes], pixel, rowBytes) + Undifference(bytes[rowBytes..], rowBytes, pixel)
  {
  }

  lemma UndifferenceNothing(rowBytes: nat, pixel: nat)
    requires pixel > 0 && rowBytes > 0
    ensures Undifference([], rowBytes, pixel) == []
  {
  }

  lemma RowFits(start: nat, length: nat, rowBytes: nat)
    requires rowBytes > 0 && start < length && start % rowBytes == 0 && length % rowBytes == 0
    ensures start + rowBytes <= length && (start + rowBytes) % rowBytes == 0
  {
    var q, n := start / rowBytes, length / rowBytes;
    assert start == rowBytes * q && length == rowBytes * n;
    if n <= q {
      MulMonotonic(rowBytes, n, q);
    }
    MulMonotonic(rowBytes, q + 1, n);
    assert rowBytes * (q + 1) == rowBytes * q + rowBytes;
    DivIs(start + rowBytes, rowBytes, q + 1, 0);
  }

  method ApplyTiffPredictor(bytes: seq<byte>, p: DecodeParams, cap: nat) returns (r: Result<seq<byte>>)
    ensures r == UnTiff(bytes, p, cap)
    ensures r.Ok? ==> |r.value| == |bytes| <= cap
  {
    if |bytes| > cap {
      return Err(LimitExceeded(MaxStreamDecodeBytes));
    }
    var geometry := Geometry(p);
    if geometry.Err? {
      return Err(geometry.error);
    }
    GeometryIsTotal(p);
    var (rowBytes, pixel) := geometry.value;
    if |bytes| % rowBytes != 0 {
      return Err(StreamDecode(PredictorRowMismatch));
    }
    var a := new byte[|bytes|](i requires 0 <= i < |bytes| => bytes[i]);
    assert a[..] == bytes;
    UndifferenceInPlace(a, rowBytes, pixel);
    return Ok(a[..]);
  }

  /** Byte-wise horizontal differencing, which is the standard's for 8-bit components. */
  function DifferenceRow(row: seq<byte>, pixel: nat): (raw: seq<byte>)
    requires pixel > 0
    ensures |raw| == |row|
  {
    seq(|row|, k requires 0 <= k < |row| =>
      (row[k] - Earlier(row, pixel, k)) % 256)
  }

  function Difference(image: seq<seq<byte>>, pixel: nat): seq<byte>
    requires pixel > 0
  {
    if image == [] then [] else DifferenceRow(image[0], pixel) + Difference(image[1..], pixel)
  }

  lemma {:induction false} UndifferenceRowUndoes(row: seq<byte>, pixel: nat, n: nat)
    requires pixel > 0 && n <= |row|
    ensures UndifferenceRow(DifferenceRow(row, pixel), pixel, n) == row[..n]
  {
    hide AddBytes;
    if n > 0 {
      UndifferenceRowUndoes(row, pixel, n - 1);
      assert LeftIn(row[..n - 1], pixel, n - 1) == LeftIn(row, pixel, n - 1);
      AddBack(row[n - 1], LeftIn(row, pixel, n - 1));
      assert row[..n] == row[..n - 1] + [row[n - 1]];
    }
  }

  lemma {:induction false} UndifferenceUndoesDifference(image: seq<seq<byte>>, rowBytes: nat, pixel: nat)
    requires Rows(image, rowBytes) && rowBytes > 0 && pixel > 0
    ensures Undifference(Difference(image, pixel), rowBytes, pixel) == Flatten(image)
    ensures |Difference(image, pixel)| == rowBytes * |image| == |Flatten(image)|
  {
    if image != [] {
      var raw, below := DifferenceRow(image[0], pixel), Difference(image[1..], pixel);
      UndifferenceUndoesDifference(image[1..], rowBytes, pixel);
      assert (raw + below)[..rowBytes] == raw && (raw + below)[rowBytes..] == below;
      UndifferenceRowUndoes(image[0], pixel, rowBytes);
      assert image[0][..rowBytes] == image[0];
      assert rowBytes * |image| == rowBytes * (|image| - 1) + rowBytes;
    }
  }

  /** Main result for components compared byte by byte. */
  lemma UnTiffUndoesDifference(image: seq<seq<byte>>, p: DecodeParams, cap: nat)
    requires Geometry(p).Ok? && Geometry(p).value.1 > 0
    requires Rows(image, Geometry(p).value.0) && |Flatten(image)| <= cap
    ensures UnTiff(Difference(image, Geometry(p).value.1), p, cap) == Ok(Flatten(image))
  {
    GeometryIsTotal(p);
    var (rowBytes, pixel) := Geometry(p).value;
    UndifferenceUndoesDifference(image, rowBytes, pixel);
    DivIs(rowBytes * |image|, rowBytes, |image|, 0);
  }

  // ---------------------------------------------------------------------------------------------
  // Choosing the predictor
  // ---------------------------------------------------------------------------------------------

  function Unpredict(bytes: seq<byte>, p: DecodeParams, cap: nat): Result<seq<byte>> {
    if p.predictor == 1 then Ok(bytes)
    else if p.predictor == 2 then UnTiff(bytes, p, cap)
    else if 10 <= p.predictor <= 15 then UnPng(bytes, p, cap)
    else Err(StreamDecode(UnsupportedPredictor))
  }

  method ApplyPredictor(bytes: seq<byte>, p: DecodeParams, cap: nat) returns (r: Result<seq<byte>>)
    ensures r == Unpredict(bytes, p, cap)
  {
    if p.predictor == 1 {
      r := Ok(bytes);
    } else if p.predictor == 2 {
      r := ApplyTiffPredictor(bytes, p, cap);
    } else if 10 <= p.predictor <= 15 {
      r := ApplyPngPredictor(bytes, p, cap);
    } else {
      r := Err(StreamDecode(UnsupportedPredictor));
    }
  }
}
