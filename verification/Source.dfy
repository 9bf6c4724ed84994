/** The byte source in its two representations, searching it, and finding where a stream ends. */
module Source {
  import opened Bytes

  // ---------------------------------------------------------------------------------------------
  // Searching
  // ---------------------------------------------------------------------------------------------

  ghost predicate NoneBefore(haystack: seq<byte>, needle: seq<byte>, from: nat, end: nat) {
    forall i: nat | from <= i < end :: !OccursAt(haystack, needle, i)
  }

  /** The first occurrence at or after `from`. */
  function Find(haystack: seq<byte>, needle: seq<byte>, from: nat): (r: Option<nat>)
    ensures r.Some? ==>
              && from <= r.value
              && OccursAt(haystack, needle, r.value)
              && NoneBefore(haystack, needle, from, r.value)
    ensures r.None? ==> forall i: nat | from <= i :: !OccursAt(haystack, needle, i)
    decreases |haystack| - from
  {
    if from + |needle| > |haystack| then None
    else if OccursAt(haystack, needle, from) then Some(from)
    else if from == |haystack| then None
    else Find(haystack, needle, from + 1)
  }

  /** A first occurrence is determined by being one. */
  lemma FoundIsFirst(haystack: seq<byte>, needle: seq<byte>, from: nat, i: nat)
    requires from <= i && OccursAt(haystack, needle, i) && NoneBefore(haystack, needle, from, i)
    ensures Find(haystack, needle, from) == Some(i)
  {
    assert Find(haystack, needle, from).Some?;
  }

  /** The plain search over the windows of a slice. */
  method FindBytes(haystack: seq<byte>, needle: seq<byte>) returns (r: Option<nat>)
    requires needle != []
    ensures r == Find(haystack, needle, 0)
  {
    var i := 0;
    while i + |needle| <= |haystack|
      invariant 0 <= i <= |haystack|
      invariant NoneBefore(haystack, needle, 0, i)
    {
      if haystack[i..i + |needle|] == needle {
        FoundIsFirst(haystack, needle, 0, i);
        return Some(i);
      }
      i := i + 1;
    }
    return None;
  }

  /** No occurrence of the needle ends within the first `n` bytes. */
  ghost predicate Searched(haystack: seq<byte>, needle: seq<byte>, n: nat) {
    forall i: nat :: i + |needle| <= n ==> !OccursAt(haystack, needle, i)
  }

  /** `piece` stands in `s` at position `i`. */
  ghost predicate PieceAt(s: seq<byte>, piece: seq<byte>, i: nat) {
    i + |piece| <= |s| && forall k | 0 <= k < |piece| :: piece[k] == s[i + k]
  }

  lemma SameThere(s: seq<byte>, piece: seq<byte>, base: nat, i: nat, n: nat)
    requires PieceAt(s, piece, base) && i + n <= |piece|
    ensures piece[i..i + n] == s[base + i..base + i + n]
  {
  }

  lemma OccursInPiece(s: seq<byte>, needle: seq<byte>, piece: seq<byte>, base: nat, i: nat)
    requires PieceAt(s, piece, base)
    ensures OccursAt(piece, needle, i) <==> i + |needle| <= |piece| && OccursAt(s, needle, base + i)
  {
    if i + |needle| <= |piece| {
      SameThere(s, piece, base, i, |needle|);
    }
  }

  lemma SliceIsPiece(s: seq<byte>, i: nat, j: nat)
    requires i <= j <= |s|
    ensures PieceAt(s, s[i..j], i)
  {
  }

  lemma NoneInWindow(haystack: seq<byte>, needle: seq<byte>, window: seq<byte>, base: nat, limit: nat)
    requires needle != [] && PieceAt(haystack, window, base)
    requires base == 0 || Searched(haystack, needle, base + |needle| - 1)
    requires NoneBefore(window, needle, 0, limit)
    ensures forall i: nat | i < base + limit && i + |needle| <= base + |window| :: !OccursAt(haystack, needle, i)
  {
    hide OccursAt, PieceAt;
    forall i: nat | i < base + limit && i + |needle| <= base + |window|
      ensures !OccursAt(haystack, needle, i)
    {
      if base <= i {
        OccursInPiece(haystack, needle, window, base, i - base);
      }
    }
  }

  /** Searching one window of the haystack, once everything that ends before it could have been
      found is known not to occur. */
  lemma WindowSearch(haystack: seq<byte>, needle: seq<byte>, window: seq<byte>, base: nat)
    requires needle != [] && PieceAt(haystack, window, base)
    requires base == 0 || Searched(haystack, needle, base + |needle| - 1)
    ensures var r := Find(window, needle, 0);
            && (r.Some? ==> Find(haystack, needle, 0) == Some(base + r.value))
            && (r.None? ==> Searched(haystack, needle, base + |window|))
  {
    hide Find, OccursAt, PieceAt;
    var r := Find(window, needle, 0);
    if r.Some? {
      NoneInWindow(haystack, needle, window, base, r.value);
      OccursInPiece(haystack, needle, window, base, r.value);
      FoundIsFirst(haystack, needle, 0, base + r.value);
    } else {
      NoneInWindow(haystack, needle, window, base, |window|);
    }
  }

  lemma JoinPieces(s: seq<byte>, a: seq<byte>, b: seq<byte>, i: nat)
    requires PieceAt(s, a, i) && PieceAt(s, b, i + |a|)
    ensures PieceAt(s, a + b, i)
  {
  }

  lemma DropFront(s: seq<byte>, piece: seq<byte>, i: nat, n: nat)
    requires PieceAt(s, piece, i) && n <= |piece|
    ensures PieceAt(s, piece[n..], i + n)
  {
  }

  /** What is known between two chunks: the bytes carried over end where the next chunk begins, and no
      occurrence ends before that. */
  ghost predicate SearchState(slice: seq<byte>, needle: seq<byte>, carried: seq<byte>, at: nat) {
    && |carried| <= at <= |slice| && (|carried| == at || |carried| == |needle| - 1)
    && PieceAt(slice, carried, at - |carried|)
    && Searched(slice, needle, at)
  }

  /** The bytes a chunk leaves for the next one. */
  function Kept(all: seq<byte>, overlap: nat): seq<byte> {
    if |all| > overlap then all[|all| - overlap..] else all
  }

  lemma NothingSearched(slice: seq<byte>, needle: seq<byte>)
    requires needle != []
    ensures SearchState(slice, needle, [], 0)
  {
  }

  lemma KeptIsEnd(slice: seq<byte>, all: seq<byte>, base: nat, overlap: nat)
    requires PieceAt(slice, all, base)
    ensures var kept := Kept(all, overlap);
            && |kept| == (if |all| > overlap then overlap else |all|)
            && PieceAt(slice, kept, base + |all| - |kept|)
  {
    if |all| > overlap {
      DropFront(slice, all, base, |all| - overlap);
    }
  }

  /** Searching what was carried over together with the next chunk. */
  lemma ChunkSearched(slice: seq<byte>, needle: seq<byte>, carried: seq<byte>, at: nat, chunk: seq<byte>)
    requires needle != [] && SearchState(slice, needle, carried, at) && PieceAt(slice, chunk, at)
    ensures |carried| <= at
    ensures var r := Find(carried + chunk, needle, 0);
            && (r.Some? ==> Find(slice, needle, 0) == Some(at - |carried| + r.value))
            && (r.None? ==> SearchState(slice, needle, Kept(carried + chunk, |needle| - 1), at + |chunk|))
  {
    hide Find, OccursAt, Kept, Searched, NoneBefore, PieceAt, SearchState;
    StateHolds(slice, needle, carried, at);
    var base := at - |carried|;
    var all := carried + chunk;
    JoinPieces(slice, carried, chunk, base);
    WindowSearch(slice, needle, all, base);
    if Find(all, needle, 0).None? {
      KeptIsEnd(slice, all, base, |needle| - 1);
      StateAgain(slice, needle, Kept(all, |needle| - 1), at + |chunk|);
    }
  }

  lemma StateHolds(slice: seq<byte>, needle: seq<byte>, carried: seq<byte>, at: nat)
    requires needle != [] && SearchState(slice, needle, carried, at)
    ensures |carried| <= at && PieceAt(slice, carried, at - |carried|)
    ensures |carried| == at || |carried| == |needle| - 1
    ensures at - |carried| == 0 || Searched(slice, needle, at - |carried| + |needle| - 1)
  {
    hide Searched, PieceAt;
    assert at - |carried| == 0 || at - |carried| + |needle| - 1 == at;
  }

  lemma StateAgain(slice: seq<byte>, needle: seq<byte>, kept: seq<byte>, at: nat)
    requires |kept| <= at && (|kept| == at || |kept| == |needle| - 1)
    requires PieceAt(slice, kept, at - |kept|) && Searched(slice, needle, at)
    ensures SearchState(slice, needle, kept, at)
  {
    hide Searched;
  }

  lemma ChunkIsPiece(file: seq<byte>, start: nat, end: nat, pos: nat, length: nat)
    requires start <= pos && pos + length <= end <= |file|
    ensures PieceAt(file[start..end], file[pos..pos + length], pos - start)
  {
    SliceOfSlice(file, start, end, pos - start, pos - start + length);
  }

  lemma AllSearched(slice: seq<byte>, needle: seq<byte>, carried: seq<byte>)
    requires SearchState(slice, needle, carried, |slice|)
    ensures Find(slice, needle, 0) == None
  {
    SearchedThrough(slice, needle);
  }

  /** The search over a spilled source: chunk after chunk, carrying the last bytes of one chunk over
      to the next. It agrees with the plain search on the slice for any chunk size. */
  method FindBytesInSpillFile(file: seq<byte>, needle: seq<byte>, start: nat, end: nat, chunkBytes: nat)
    returns (r: Option<nat>)
    requires needle != [] && start <= end <= |file| && chunkBytes >= 1
    ensures var plain := Find(file[start..end], needle, 0);
            r == if plain.Some? then Some(start + plain.value) else None
  {
    hide Find, SearchState, Kept, OccursAt, NoneBefore, PieceAt;
    ghost var slice := file[start..end];
    var overlap := |needle| - 1;
    var pos := start;
    var carried: seq<byte> := [];
    NothingSearched(slice, needle);
    while pos < end
      invariant start <= pos <= end
      invariant SearchState(slice, needle, carried, pos - start)
      decreases end - pos
    {
      var readLen := if end - pos < chunkBytes then end - pos else chunkBytes;
      var chunk := file[pos..pos + readLen];
      ChunkIsPiece(file, start, end, pos, readLen);
      ChunkSearched(slice, needle, carried, pos - start, chunk);
      var searchBase := pos - |carried|;
      carried := carried + chunk;
      var relative := FindBytes(carried, needle);
      if relative.Some? {
        return Some(searchBase + relative.value);
      }
      carried := Kept(carried, overlap);
      pos := pos + readLen;
      if readLen == 0 {
        break;
      }
    }
    AllSearched(slice, needle, carried);
    return None;
  }

  lemma SearchedThrough(haystack: seq<byte>, needle: seq<byte>)
    requires Searched(haystack, needle, |haystack|)
    ensures Find(haystack, needle, 0) == None
  {
  }

  lemma SliceOfSlice(s: seq<byte>, a: nat, b: nat, i: nat, j: nat)
    requires a <= b <= |s| && i <= j <= b - a
    ensures s[a..b][i..j] == s[a + i..a + j]
  {
    var piece := s[a..b];
    assert |piece[i..j]| == j - i;
    assert forall k | 0 <= k < j - i :: piece[i..j][k] == piece[i + k] == s[a + i + k] == s[a + i..a + j][k];
  }

  // ---------------------------------------------------------------------------------------------
  // The two representations
  // ---------------------------------------------------------------------------------------------

  const SPILL_SEARCH_CHUNK_BYTES := 8192

  /** The whole input held in memory, or spilled to a file of the same bytes. */
  datatype Storage = Memory(bytes: seq<byte>) | SpillFile(bytes: seq<byte>) {
    function Slice(start: nat, end: nat): Result<seq<byte>> {
      if start > end || end > |bytes| then Err(Malformed) else Ok(bytes[start..end])
    }

    predicate StartsWith(pos: nat, expected: seq<byte>) {
      OccursAt(bytes, expected, pos)
    }
  }

  ghost function FindIn(bytes: seq<byte>, needle: seq<byte>, start: nat, end: nat): Option<nat> {
    if needle == [] || start > end || end > |bytes| then None
    else
      var plain := Find(bytes[start..end], needle, 0);
      if plain.Some? then Some(start + plain.value) else None
  }

  /** Searching a range gives the same answer in both representations. */
  method FindInStorage(source: Storage, needle: seq<byte>, start: nat, end: nat) returns (r: Option<nat>)
    ensures r == FindIn(source.bytes, needle, start, end)
  {
    if needle == [] || start > end || end > |source.bytes| {
      return None;
    }
    match source
    case Memory(bytes) =>
      var relative := FindBytes(bytes[start..end], needle);
      r := if relative.Some? then Some(start + relative.value) else None;
    case SpillFile(bytes) =>
      r := FindBytesInSpillFile(bytes, needle, start, end, SPILL_SEARCH_CHUNK_BYTES);
  }

  /** The bytes of a stream and its range in them: the whole source in memory, a copy when spilled. */
  function StreamSource(source: Storage, start: nat, end: nat): Result<(seq<byte>, nat, nat)> {
    match source
    case Memory(bytes) => Ok((bytes, start, end))
    case SpillFile(bytes) =>
      var copy :- source.Slice(start, end);
      Ok((copy, 0, |copy|))
  }

  /** Both representations yield the same raw bytes. */
  lemma StreamSourceBytes(source: Storage, start: nat, end: nat)
    requires start <= end <= |source.bytes|
    ensures var r := StreamSource(source, start, end);
            && r.Ok?
            && r.value.1 <= r.value.2 <= |r.value.0|
            && r.value.0[r.value.1..r.value.2] == source.bytes[start..end]
  {
    if source.SpillFile? {
      var copy := source.bytes[start..end];
      assert copy[0..|copy|] == copy;
    }
  }

  // ---------------------------------------------------------------------------------------------
  // Where a stream ends
  // ---------------------------------------------------------------------------------------------

  const CR: byte := 13
  const LF: byte := 10
  const ENDSTREAM: seq<byte> := [101, 110, 100, 115, 116, 114, 101, 97, 109]

  predicate IsEol(s: seq<byte>) {
    s == [] || s == [CR] || s == [LF] || s == [CR, LF]
  }

  /** The position of the keyword at `offset`, an end of line before it allowed. */
  function EndstreamAfterOptionalEol(source: seq<byte>, offset: nat): Option<nat> {
    if OccursAt(source, ENDSTREAM, offset) then Some(offset)
    else if OccursAt(source, [CR, LF] + ENDSTREAM, offset) then Some(offset + 2)
    else if OccursAt(source, [LF] + ENDSTREAM, offset) || OccursAt(source, [CR] + ENDSTREAM, offset) then
      Some(offset + 1)
    else None
  }

  /** The end of the data before a keyword: one end of line is not data. */
  function TrimEolBefore(source: seq<byte>, dataStart: nat, keyword: nat): nat
    requires dataStart <= keyword <= |source|
  {
    if keyword >= dataStart + 2 && source[keyword - 2..keyword] == [CR, LF] then keyword - 2
    else if keyword > dataStart && (source[keyword - 1] == LF || source[keyword - 1] == CR) then keyword - 1
    else keyword
  }

  /** The end of the data and the position of the keyword. */
  ghost function StreamExtent(source: seq<byte>, dataStart: nat, declared: Option<nat>, maxDeclared: nat)
    : Result<(nat, nat)>
    requires dataStart <= |source|
  {
    if declared.Some? && declared.value > maxDeclared then Err(LimitExceeded(MaxStreamDeclaredBytes))
    else if declared.Some? && EndstreamAfterOptionalEol(source, dataStart + declared.value).Some? then
      Ok((dataStart + declared.value, EndstreamAfterOptionalEol(source, dataStart + declared.value).value))
    else
      var scanEnd := if dataStart + maxDeclared < |source| then dataStart + maxDeclared else |source|;
      var keyword := FindIn(source, ENDSTREAM, dataStart, scanEnd);
      if keyword.None? then Err(Malformed)
      else Ok((TrimEolBefore(source, dataStart, keyword.value), keyword.value))
  }

  method FindStreamExtent(source: Storage, dataStart: nat, declared: Option<nat>, maxDeclared: nat)
    returns (r: Result<(nat, nat)>)
    requires dataStart <= |source.bytes|
    ensures r == StreamExtent(source.bytes, dataStart, declared, maxDeclared)
  {
    if declared.Some? && declared.value > maxDeclared {
      return Err(LimitExceeded(MaxStreamDeclaredBytes));
    }
    var declaredKeyword := None;
    if declared.Some? {
      declaredKeyword := EndstreamAfterOptionalEol(source.bytes, dataStart + declared.value);
    }
    if declaredKeyword.Some? {
      return Ok((dataStart + declared.value, declaredKeyword.value));
    }
    var scanEnd := if dataStart + maxDeclared < |source.bytes| then dataStart + maxDeclared else |source.bytes|;
    var keyword := FindInStorage(source, ENDSTREAM, dataStart, scanEnd);
    if keyword.None? {
      return Err(Malformed);
    }
    return Ok((TrimEolBefore(source.bytes, dataStart, keyword.value), keyword.value));
  }

  lemma FoundInSource(source: seq<byte>, needle: seq<byte>, start: nat, end: nat)
    requires FindIn(source, needle, start, end).Some?
    ensures var i := FindIn(source, needle, start, end).value;
            start <= i && i + |needle| <= end && OccursAt(source, needle, i)
  {
    var i := FindIn(source, needle, start, end).value;
    SliceIsPiece(source, start, end);
    OccursInPiece(source, needle, source[start..end], start, i - start);
  }

  /** Whatever the dictionary says, the range found is well formed, ends at most one end of line
      before a keyword, and lies in the source. */
  lemma ExtentIsWellFormed(source: seq<byte>, dataStart: nat, declared: Option<nat>, maxDeclared: nat)
    requires dataStart <= |source|
    ensures var r := StreamExtent(source, dataStart, declared, maxDeclared);
            r.Ok? ==>
              var (end, keyword) := r.value;
              && dataStart <= end <= keyword <= end + 2
              && OccursAt(source, ENDSTREAM, keyword)
              && end - dataStart <= maxDeclared
              && IsEol(source[end..keyword])
  {
    var r := StreamExtent(source, dataStart, declared, maxDeclared);
    hide EndstreamAfterOptionalEol, TrimEolBefore, OccursAt, IsEol, FindIn;
    if r.Ok? {
      var (end, keyword) := r.value;
      if declared.Some? && EndstreamAfterOptionalEol(source, dataStart + declared.value).Some? {
        DeclaredKeyword(source, end);
      } else {
        var scanEnd := if dataStart + maxDeclared < |source| then dataStart + maxDeclared else |source|;
        FoundInSource(source, ENDSTREAM, dataStart, scanEnd);
        TrimmedIsEol(source, dataStart, keyword);
      }
    }
  }

  lemma TrimmedIsEol(source: seq<byte>, dataStart: nat, keyword: nat)
    requires dataStart <= keyword <= |source|
    ensures var end := TrimEolBefore(source, dataStart, keyword);
            dataStart <= end <= keyword <= end + 2 && IsEol(source[end..keyword])
  {
    var end := TrimEolBefore(source, dataStart, keyword);
    if end == keyword - 1 {
      assert source[end..keyword] == [source[end]];
    }
  }

  lemma DeclaredKeyword(source: seq<byte>, offset: nat)
    requires EndstreamAfterOptionalEol(source, offset).Some?
    ensures var keyword := EndstreamAfterOptionalEol(source, offset).value;
            && offset <= keyword <= offset + 2
            && OccursAt(source, ENDSTREAM, keyword)
            && IsEol(source[offset..keyword])
  {
    var keyword := EndstreamAfterOptionalEol(source, offset).value;
    if OccursAt(source, ENDSTREAM, offset) {
      assert source[offset..keyword] == [];
    } else if OccursAt(source, [CR, LF] + ENDSTREAM, offset) {
      OccursSplit(source, [CR, LF], ENDSTREAM, offset);
    } else if OccursAt(source, [LF] + ENDSTREAM, offset) {
      OccursSplit(source, [LF], ENDSTREAM, offset);
    } else {
      OccursSplit(source, [CR], ENDSTREAM, offset);
    }
  }

  lemma OccursSplit(source: seq<byte>, a: seq<byte>, b: seq<byte>, i: nat)
    ensures OccursAt(source, a + b, i) <==> OccursAt(source, a, i) && OccursAt(source, b, i + |a|)
  {
    if i + |a| + |b| <= |source| {
      var whole := source[i..i + |a + b|];
      assert whole[..|a|] == source[i..i + |a|] && whole[|a|..] == source[i + |a|..i + |a| + |b|];
      assert (a + b)[..|a|] == a && (a + b)[|a|..] == b;
      assert whole == whole[..|a|] + whole[|a|..];
    }
  }

  datatype Eol = NoEol | CrEol | LfEol | CrLfEol {
    function Bytes(): seq<byte> {
      match this
      case NoEol => []
      case CrEol => [CR]
      case LfEol => [LF]
      case CrLfEol => [CR, LF]
    }
  }

  /** A stream written with its right length is recovered exactly, whatever its data contain. */
  lemma RightLengthRecoversData(
      before: seq<byte>, data: seq<byte>, eol: Eol, after: seq<byte>, maxDeclared: nat)
    requires |data| <= maxDeclared
    ensures var source := before + data + eol.Bytes() + ENDSTREAM + after;
            var r := StreamExtent(source, |before|, Some(|data|), maxDeclared);
            && r == Ok((|before| + |data|, |before| + |data| + |eol.Bytes()|))
            && source[|before|..|before| + |data|] == data
  {
    var source := before + data + eol.Bytes() + ENDSTREAM + after;
    var offset := |before| + |data|;
    assert source[offset..] == eol.Bytes() + ENDSTREAM + after;
    assert OccursAt(source, eol.Bytes() + ENDSTREAM, offset) by {
      assert source[offset..offset + |eol.Bytes() + ENDSTREAM|] == source[offset..][..|eol.Bytes() + ENDSTREAM|];
    }
    assert eol.NoEol? ==> eol.Bytes() + ENDSTREAM == ENDSTREAM;
    FirstByteDecides(source, offset, eol);
  }

  lemma FirstByteDecides(source: seq<byte>, offset: nat, eol: Eol)
    requires OccursAt(source, eol.Bytes() + ENDSTREAM, offset)
    ensures EndstreamAfterOptionalEol(source, offset) == Some(offset + |eol.Bytes()|)
  {
    var all := eol.Bytes() + ENDSTREAM;
    assert forall k | 0 <= k < |all| :: source[offset + k] == all[k] by {
      forall k | 0 <= k < |all|
        ensures source[offset + k] == all[k]
      {
        assert source[offset..offset + |all|][k] == all[k];
      }
    }
    match eol
    case NoEol =>
      assert all == ENDSTREAM;
    case CrEol =>
      assert source[offset] == CR && source[offset + 1] == 101;
      StartsDiffer(source, ENDSTREAM, offset, 0);
      StartsDiffer(source, [CR, LF] + ENDSTREAM, offset, 1);
    case LfEol =>
      assert source[offset] == LF;
      StartsDiffer(source, ENDSTREAM, offset, 0);
      StartsDiffer(source, [CR, LF] + ENDSTREAM, offset, 0);
    case CrLfEol =>
      assert source[offset] == CR;
      StartsDiffer(source, ENDSTREAM, offset, 0);
  }

  lemma StartsDiffer(source: seq<byte>, expected: seq<byte>, offset: nat, k: nat)
    requires k < |expected| && offset + k < |source| && source[offset + k] != expected[k]
    ensures !OccursAt(source, expected, offset)
  {
    if offset + |expected| <= |source| {
      assert source[offset..offset + |expected|][k] == source[offset + k];
    }
  }

  /** Without a usable length, the data end at the first keyword, one end of line trimmed. */
  lemma ScanStopsAtFirstKeyword(source: seq<byte>, dataStart: nat, declared: Option<nat>, maxDeclared: nat, keyword: nat)
    requires dataStart <= keyword && OccursAt(source, ENDSTREAM, keyword)
    requires NoneBefore(source, ENDSTREAM, dataStart, keyword)
    requires keyword + |ENDSTREAM| <= dataStart + maxDeclared
    requires declared.Some? ==>
               declared.value <= maxDeclared && EndstreamAfterOptionalEol(source, dataStart + declared.value).None?
    ensures StreamExtent(source, dataStart, declared, maxDeclared)
         == Ok((TrimEolBefore(source, dataStart, keyword), keyword))
  {
    var scanEnd := if dataStart + maxDeclared < |source| then dataStart + maxDeclared else |source|;
    assert keyword + |ENDSTREAM| <= scanEnd by {
      assert keyword + |ENDSTREAM| <= |source|;
    }
    hide OccursAt, EndstreamAfterOptionalEol, TrimEolBefore, FindIn;
    FirstInRange(source, ENDSTREAM, dataStart, scanEnd, keyword);
  }

  /** A first occurrence in the source is the first one in any range around it. */
  lemma FirstInRange(source: seq<byte>, needle: seq<byte>, start: nat, end: nat, i: nat)
    requires needle != [] && start <= i && i + |needle| <= end <= |source|
    requires OccursAt(source, needle, i) && NoneBefore(source, needle, start, i)
    ensures FindIn(source, needle, start, end) == Some(i)
  {
    hide OccursAt, Find, PieceAt;
    var slice := source[start..end];
    SliceIsPiece(source, start, end);
    OccursInPiece(source, needle, source[start..end], start, i - start);
    forall k: nat | k < i - start
      ensures !OccursAt(slice, needle, k)
    {
      OccursInPiece(source, needle, slice, start, k);
    }
    FoundIsFirst(slice, needle, 0, i - start);
  }

  /** The keyword has no border, so it cannot begin inside data that do not contain it. */
  lemma KeywordDoesNotStraddle(data: seq<byte>, eol: Eol, after: seq<byte>, i: nat)
    requires forall k: nat :: !OccursAt(data, ENDSTREAM, k)
    requires i < |data| + |eol.Bytes()|
    ensures !OccursAt(data + eol.Bytes() + ENDSTREAM + after, ENDSTREAM, i)
  {
    var all := data + eol.Bytes() + ENDSTREAM + after;
    if i + 9 <= |data| {
      assert all[i..i + 9] == data[i..i + 9];
      assert !OccursAt(data, ENDSTREAM, i);
    } else {
      var last := i + 8;
      assert all[last] != 109 by {
        if last < |data| + |eol.Bytes()| {
          assert all[last] == eol.Bytes()[last - |data|];
        } else {
          assert all[last] == ENDSTREAM[last - |data| - |eol.Bytes()|];
        }
      }
      StartsDiffer(all, ENDSTREAM, i, 8);
    }
  }

  ghost predicate EndsWith(data: seq<byte>, b: byte) {
    data != [] && data[|data| - 1] == b
  }

  /** The end of line in front of the keyword cannot be taken for the last byte of the data, nor that
      byte for part of it. */
  ghost predicate EolStandsApart(data: seq<byte>, eol: Eol) {
    match eol
    case NoEol => !EndsWith(data, CR) && !EndsWith(data, LF)
    case LfEol => !EndsWith(data, CR)
    case _ => true
  }

  /** Data written without a length, or with a length that leads to no keyword, come back exactly when they
      do not contain the keyword and the end of line in front of the keyword stands apart from them. */
  lemma ScanRecoversDataIff(
      before: seq<byte>, data: seq<byte>, eol: Eol, after: seq<byte>, declared: Option<nat>, maxDeclared: nat)
    requires |data| + |eol.Bytes()| + |ENDSTREAM| <= maxDeclared
    requires declared.Some? ==>
               && declared.value <= maxDeclared
               && EndstreamAfterOptionalEol(before + data + eol.Bytes() + ENDSTREAM + after, |before| + declared.value).None?
    ensures var source := before + data + eol.Bytes() + ENDSTREAM + after;
            var r := StreamExtent(source, |before|, declared, maxDeclared);
            && r.Ok?
            && (r.value.0 == |before| + |data| <==>
                Find(data, ENDSTREAM, 0).None? && EolStandsApart(data, eol))
  {
    hide OccursAt, EndstreamAfterOptionalEol, StreamExtent, TrimEolBefore, Eol.Bytes, EolStandsApart;
    var source := before + data + eol.Bytes() + ENDSTREAM + after;
    var inside := Find(data, ENDSTREAM, 0);
    if inside.None? {
      var keyword := |before| + |data| + |eol.Bytes()|;
      KeywordIsFirst(before, data, eol, after);
      ScanStopsAtFirstKeyword(source, |before|, declared, maxDeclared, keyword);
      TrimRecoversDataIff(before, data, eol, ENDSTREAM + after);
      assert before + data + eol.Bytes() + (ENDSTREAM + after) == source;
    } else {
      KeywordInside(before, data, eol.Bytes() + ENDSTREAM + after, inside.value);
      assert before + data + (eol.Bytes() + ENDSTREAM + after) == source;
      ScanStopsAtFirstKeyword(source, |before|, declared, maxDeclared, |before| + inside.value);
      TrimmedIsEol(source, |before|, |before| + inside.value);
    }
  }

  lemma InTheMiddle(before: seq<byte>, data: seq<byte>, rest: seq<byte>)
    ensures PieceAt(before + data + rest, data, |before|)
  {
  }

  /** The first keyword inside the data is the first one in the source. */
  lemma KeywordInside(before: seq<byte>, data: seq<byte>, rest: seq<byte>, i: nat)
    requires Find(data, ENDSTREAM, 0) == Some(i)
    ensures OccursAt(before + data + rest, ENDSTREAM, |before| + i) && i + |ENDSTREAM| <= |data|
    ensures NoneBefore(before + data + rest, ENDSTREAM, |before|, |before| + i)
  {
    hide OccursAt, PieceAt, Find;
    var source := before + data + rest;
    InTheMiddle(before, data, rest);
    OccursInPiece(source, ENDSTREAM, data, |before|, i);
    forall k: nat | |before| <= k < |before| + i
      ensures !OccursAt(source, ENDSTREAM, k)
    {
      assert !OccursAt(data, ENDSTREAM, k - |before|);
      OccursInPiece(source, ENDSTREAM, data, |before|, k - |before|);
    }
  }

  lemma KeywordThere(before: seq<byte>, data: seq<byte>, eol: seq<byte>, after: seq<byte>)
    ensures var tail := data + eol + ENDSTREAM + after;
            var source := before + data + eol + ENDSTREAM + after;
            && PieceAt(source, tail, |before|)
            && OccursAt(source, ENDSTREAM, |before| + |data| + |eol|)
  {
    var source := before + data + eol + ENDSTREAM + after;
    var keyword := |before| + |data| + |eol|;
    assert source[keyword..keyword + |ENDSTREAM|] == ENDSTREAM;
    assert source == before + (data + eol + ENDSTREAM + after);
  }

  lemma KeywordIsFirst(before: seq<byte>, data: seq<byte>, eol: Eol, after: seq<byte>)
    requires forall k: nat :: !OccursAt(data, ENDSTREAM, k)
    ensures var source := before + data + eol.Bytes() + ENDSTREAM + after;
            var keyword := |before| + |data| + |eol.Bytes()|;
            OccursAt(source, ENDSTREAM, keyword) && NoneBefore(source, ENDSTREAM, |before|, keyword)
  {
    var tail := data + eol.Bytes() + ENDSTREAM + after;
    var source := before + data + eol.Bytes() + ENDSTREAM + after;
    var keyword := |before| + |data| + |eol.Bytes()|;
    KeywordThere(before, data, eol.Bytes(), after);
    hide OccursAt, PieceAt, Eol.Bytes;
    forall i: nat | |before| <= i < keyword
      ensures !OccursAt(source, ENDSTREAM, i)
    {
      KeywordDoesNotStraddle(data, eol, after, i - |before|);
      OccursInPiece(source, ENDSTREAM, tail, |before|, i - |before|);
    }
  }

  lemma TrimRecoversDataIff(before: seq<byte>, data: seq<byte>, eol: Eol, rest: seq<byte>)
    ensures var source := before + data + eol.Bytes() + rest;
            EolStandsApart(data, eol) <==>
            TrimEolBefore(source, |before|, |before| + |data| + |eol.Bytes()|) == |before| + |data|
  {
    var source := before + data + eol.Bytes() + rest;
    var keyword := |before| + |data| + |eol.Bytes()|;
    assert data != [] ==> source[|before| + |data| - 1] == data[|data| - 1];
    assert eol.Bytes() != [] ==> source[|before| + |data|] == eol.Bytes()[0];
    assert |eol.Bytes()| > 1 ==> source[|before| + |data| + 1] == eol.Bytes()[1];
    if keyword >= |before| + 2 {
      assert source[keyword - 2..keyword] == [source[keyword - 2], source[keyword - 1]];
    }
  }
}
