/** TIFF differencing sample by sample, as the standard defines it for every component width, against the
    predictor, which adds byte by byte. */
module TiffSamples {
  import opened Arithmetic
  import opened Bytes
  import opened Cos
  import opened Predictors

  // ---------------------------------------------------------------------------------------------
  // Rows and images
  // ---------------------------------------------------------------------------------------------

  /** A row is restored exactly when adding the byte one pixel to the left restores each of its bytes. */
  lemma {:induction false} RestoredBytewiseIff(raw: seq<byte>, row: seq<byte>, pixel: nat, n: nat)
    requires pixel > 0 && |raw| == |row| && n <= |row|
    ensures UndifferenceRow(raw, pixel, n) == row[..n]
       <==> forall i | 0 <= i < n :: AddBytes(raw[i], LeftIn(row, pixel, i)) == row[i]
  {
    hide AddBytes;
    if n > 0 {
      RestoredBytewiseIff(raw, row, pixel, n - 1);
      var before, after := UndifferenceRow(raw, pixel, n - 1), UndifferenceRow(raw, pixel, n);
      assert after[..n - 1] == before && row[..n][..n - 1] == row[..n - 1];
      if before == row[..n - 1] {
        assert LeftIn(before, pixel, n - 1) == LeftIn(row, pixel, n - 1);
        assert after[n - 1] == AddBytes(raw[n - 1], LeftIn(row, pixel, n - 1));
        assert row[..n] == row[..n - 1] + [row[n - 1]];
      }
    }
  }

  /** An image is restored exactly when each of its rows is. */
  lemma {:induction false} ImageRestoredIff(raws: seq<seq<byte>>, image: seq<seq<byte>>, rowBytes: nat, pixel: nat)
    requires Rows(raws, rowBytes) && Rows(image, rowBytes) && |raws| == |image| && rowBytes > 0 && pixel > 0
    ensures Undifference(Flatten(raws), rowBytes, pixel) == Flatten(image)
       <==> forall k | 0 <= k < |image| :: UndifferenceRow(raws[k], pixel, rowBytes) == image[k]
    ensures |Flatten(raws)| == rowBytes * |raws| == |Flatten(image)|
  {
    hide UndifferenceRow, Undifference;
    if image == [] {
      UndifferenceNothing(rowBytes, pixel);
    } else {
      ImageRestoredIff(raws[1..], image[1..], rowBytes, pixel);
      var bytes := Flatten(raws);
      assert bytes[..rowBytes] == raws[0] && bytes[rowBytes..] == Flatten(raws[1..]);
      UndifferenceFirstRow(bytes, rowBytes, pixel);
      var first, below := UndifferenceRow(raws[0], pixel, rowBytes), Undifference(Flatten(raws[1..]), rowBytes, pixel);
      HalvesEqualIff(first, image[0], below, Flatten(image[1..]));
      assert rowBytes * |raws| == rowBytes * (|raws| - 1) + rowBytes;
    }
  }

  lemma HalvesEqualIff(a: seq<byte>, b: seq<byte>, c: seq<byte>, d: seq<byte>)
    requires |a| == |b|
    ensures a + c == b + d <==> a == b && c == d
  {
    if a + c == b + d {
      assert a == (a + c)[..|a|] && b == (b + d)[..|b|];
      assert c == (a + c)[|a|..] && d == (b + d)[|b|..];
    }
  }

  // ---------------------------------------------------------------------------------------------
  // 16-bit components
  // ---------------------------------------------------------------------------------------------

  /** The big-endian 16-bit sample `j` of a row. */
  function Sample(row: seq<byte>, j: nat): nat
    requires 2 * j + 1 < |row|
  {
    var high: int := row[2 * j];
    256 * high + row[2 * j + 1]
  }

  /** The sample `colors` places to the left, zero in the first pixel. */
  function LeftSample(row: seq<byte>, colors: nat, j: nat): nat
    requires colors > 0 && 2 * j + 1 < |row|
  {
    if j >= colors then Sample(row, j - colors) else 0
  }

  /** Horizontal differencing of whole 16-bit samples, as the standard defines it. */
  function DifferenceRow16(row: seq<byte>, colors: nat): (raw: seq<byte>)
    requires colors > 0 && |row| % 2 == 0
    ensures |raw| == |row|
  {
    seq(|row|, k requires 0 <= k < |row| => Difference16Byte(row, colors, k))
  }

  function SampleDifference(row: seq<byte>, colors: nat, j: nat): (d: nat)
    requires colors > 0 && 2 * j + 1 < |row|
    ensures d < 0x1_0000
  {
    (Sample(row, j) - LeftSample(row, colors, j)) % 0x1_0000
  }

  function Difference16Byte(row: seq<byte>, colors: nat, k: nat): byte
    requires colors > 0 && |row| % 2 == 0 && k < |row|
  {
    var d := SampleDifference(row, colors, k / 2);
    if k % 2 == 0 then d / 256 else d % 256
  }

  /** None of the first samples has a smaller low byte than the sample to its left. */
  predicate NoBorrow(row: seq<byte>, colors: nat, samples: nat)
    requires colors > 0 && 2 * samples <= |row|
  {
    forall j | 0 <= j < samples :: Sample(row, j) % 256 >= LeftSample(row, colors, j) % 256
  }

  lemma HighBytes(xh: byte, xl: byte, lh: byte, ll: byte, d: nat)
    requires d == ((256 * xh as int + xl) - (256 * lh as int + ll)) % 0x1_0000
    ensures (d % 256 + ll) % 256 == xl
    ensures (d / 256 + lh) % 256 == xh <==> xl >= ll
  {
    var borrow := if xl < ll then 1 else 0;
    var low: int := xl - ll + 256 * borrow;
    var high: int := xh - lh - borrow;
    var wrapped := if high < 0 then high + 256 else high;
    assert d == 256 * wrapped + low by {
      DivIs((256 * xh as int + xl) - (256 * lh as int + ll), 0x1_0000, if high < 0 then -1 else 0, 256 * wrapped + low);
    }
    DivIs(d, 256, wrapped, low);
  }

  lemma LeftSampleBytes(row: seq<byte>, colors: nat, j: nat)
    requires colors > 0 && |row| % 2 == 0 && 2 * j + 1 < |row|
    ensures LeftSample(row, colors, j)
         == 256 * LeftIn(row, 2 * colors, 2 * j) as int + LeftIn(row, 2 * colors, 2 * j + 1)
  {
    if j >= colors {
      assert 2 * (j - colors) == 2 * j - 2 * colors;
    }
  }

  lemma SampleRestoredIff(row: seq<byte>, colors: nat, j: nat)
    requires colors > 0 && |row| % 2 == 0 && 2 * j + 1 < |row|
    ensures var raw := DifferenceRow16(row, colors);
            && AddBytes(raw[2 * j + 1], LeftIn(row, 2 * colors, 2 * j + 1)) == row[2 * j + 1]
            && (AddBytes(raw[2 * j], LeftIn(row, 2 * colors, 2 * j)) == row[2 * j]
                <==> Sample(row, j) % 256 >= LeftSample(row, colors, j) % 256)
  {
    var lh, ll := LeftIn(row, 2 * colors, 2 * j), LeftIn(row, 2 * colors, 2 * j + 1);
    LeftSampleBytes(row, colors, j);
    HighBytes(row[2 * j], row[2 * j + 1], lh, ll, SampleDifference(row, colors, j));
    DivIs(Sample(row, j), 256, row[2 * j], row[2 * j + 1]);
    DivIs(LeftSample(row, colors, j), 256, lh, ll);
    assert 2 * j / 2 == j && (2 * j + 1) / 2 == j && 2 * j % 2 == 0 && (2 * j + 1) % 2 == 1;
  }

  lemma Row16RestoredIff(row: seq<byte>, colors: nat)
    requires colors > 0 && |row| % 2 == 0
    ensures UndifferenceRow(DifferenceRow16(row, colors), 2 * colors, |row|) == row
       <==> NoBorrow(row, colors, |row| / 2)
  {
    hide UndifferenceRow, AddBytes, LeftIn, LeftSample, Sample, DifferenceRow16;
    var raw := DifferenceRow16(row, colors);
    RestoredBytewiseIff(raw, row, 2 * colors, |row|);
    assert row[..|row|] == row;
    forall j | 0 <= j < |row| / 2
      ensures AddBytes(raw[2 * j + 1], LeftIn(row, 2 * colors, 2 * j + 1)) == row[2 * j + 1]
      ensures AddBytes(raw[2 * j], LeftIn(row, 2 * colors, 2 * j)) == row[2 * j]
         <==> Sample(row, j) % 256 >= LeftSample(row, colors, j) % 256
    {
      SampleRestoredIff(row, colors, j);
    }
    if NoBorrow(row, colors, |row| / 2) {
      forall i | 0 <= i < |row|
        ensures AddBytes(raw[i], LeftIn(row, 2 * colors, i)) == row[i]
      {
        assert i == 2 * (i / 2) || i == 2 * (i / 2) + 1;
        SampleRestoredIff(row, colors, i / 2);
      }
    }
  }

  // ---------------------------------------------------------------------------------------------
  // Components of at most 8 bits
  // ---------------------------------------------------------------------------------------------

  predicate FitsByte(bits: nat) {
    bits == 1 || bits == 2 || bits == 4 || bits == 8
  }

  function Levels(bits: nat): (q: nat)
    ensures q > 1
  {
    if bits == 1 then 2 else if bits == 2 then 4 else if bits == 4 then 16 else 256
  }

  function Power(q: nat, n: nat): nat {
    if n == 0 then 1 else q * Power(q, n - 1)
  }

  /** The number digits spell, high digit first; digits may be out of range. */
  function Number(ds: seq<int>, q: int): int {
    if ds == [] then 0 else Number(ds[..|ds| - 1], q) * q + ds[|ds| - 1]
  }

  /** The low `n` digits of a number, high digit first. */
  function Digits(v: nat, n: nat, q: nat): (ds: seq<int>)
    requires q > 0
    ensures |ds| == n
    ensures forall k | 0 <= k < n :: 0 <= ds[k] < q
    decreases n
  {
    if n == 0 then [] else Digits(v / q, n - 1, q) + [v % q]
  }

  lemma {:induction false} NumberOfDigits(v: nat, n: nat, q: nat)
    requires q > 0 && v < Power(q, n)
    ensures Number(Digits(v, n, q), q) == v
    decreases n
  {
    hide Digits, Number, Power;
    DigitsEnd(v, n, q);
    if n > 0 {
      QuotientInRange(v, q, Power(q, n - 1));
      NumberOfDigits(v / q, n - 1, q);
      NumberEnds(Digits(v / q, n - 1, q), v % q, q);
      QuotientAndRest(v, q);
    }
  }

  lemma DigitsEnd(v: nat, n: nat, q: nat)
    requires q > 0
    ensures n > 0 ==> Digits(v, n, q) == Digits(v / q, n - 1, q) + [v % q] && Power(q, n) == q * Power(q, n - 1)
    ensures n == 0 ==> Number(Digits(v, n, q), q) == 0 && Power(q, n) == 1
  {
  }

  lemma QuotientAndRest(v: nat, q: nat)
    requires q > 0
    ensures v / q * q + v % q == v
  {
  }

  lemma QuotientInRange(v: nat, q: nat, p: nat)
    requires q > 0 && v < q * p
    ensures v / q < p
  {
    if v / q >= p {
      MulMonotonic(q, p, v / q);
    }
  }

  lemma NumberEnds(front: seq<int>, last: int, q: int)
    ensures Number(front + [last], q) == Number(front, q) * q + last
  {
    assert (front + [last])[..|front|] == front;
  }

  lemma {:induction false} NumberInRange(ds: seq<int>, q: nat)
    requires forall k | 0 <= k < |ds| :: 0 <= ds[k] < q
    ensures 0 <= Number(ds, q) < Power(q, |ds|)
  {
    if ds != [] {
      var front := ds[..|ds| - 1];
      NumberInRange(front, q);
      MulMonotonic(q, Number(front, q) + 1, Power(q, |front|));
      MulMonotonic(q, 0, Number(front, q));
      assert q * (Number(front, q) + 1) == Number(front, q) * q + q;
    }
  }

  /** Numbers add digit by digit. */
  lemma {:induction false} NumberIsLinear(d: seq<int>, s: seq<int>, l: seq<int>, w: seq<int>, q: int)
    requires |d| == |s| == |l| == |w| && forall k | 0 <= k < |d| :: d[k] == s[k] - l[k] + q * w[k]
    ensures Number(d, q) == Number(s, q) - Number(l, q) + q * Number(w, q)
  {
    if d != [] {
      var n := |d| - 1;
      NumberIsLinear(d[..n], s[..n], l[..n], w[..n], q);
      var ns, nl, nw := Number(s[..n], q), Number(l[..n], q), Number(w[..n], q);
      assert d[n] == s[n] - l[n] + q * w[n];
      Distribute(ns, nl, nw, w[n], q);
    }
  }

  lemma Distribute(a: int, b: int, c: int, d: int, q: int)
    ensures (a - b + q * c) * q == a * q - b * q + q * (c * q)
    ensures q * (c * q + d) == q * (c * q) + q * d
  {
    assert q * c * q == q * (c * q);
  }

  /** Sample `j` of a row, samples packed high bits first. */
  function SampleAt(row: seq<byte>, bits: nat, j: nat): (s: int)
    requires FitsByte(bits) && j / (8 / bits) < |row|
    ensures 0 <= s < Levels(bits)
  {
    Digits(row[j / (8 / bits)], 8 / bits, Levels(bits))[j % (8 / bits)]
  }

  /** The sample `colors` places to the left; zero in the first pixel, and for the bits that fill up the
      last byte. */
  function LeftOf(row: seq<byte>, p: DecodeParams, j: nat): (s: int)
    requires FitsByte(p.bitsPerComponent) && j / (8 / p.bitsPerComponent) < |row|
    ensures 0 <= s < Levels(p.bitsPerComponent)
  {
    if p.colors <= j < p.columns * p.colors then
      Earlier(j, p.colors, 8 / p.bitsPerComponent);
      SampleAt(row, p.bitsPerComponent, j - p.colors)
    else 0
  }

  lemma Earlier(j: nat, colors: nat, n: nat)
    requires colors <= j && n > 0
    ensures (j - colors) / n <= j / n
  {
    var a, b := (j - colors) / n, j / n;
    assert j - colors == n * a + (j - colors) % n && j == n * b + j % n;
    assert n * (b + 1) == n * b + n;
    if a > b {
      MulMonotonic(n, b + 1, a);
    }
  }

  /** The samples of byte `i`, what stands to their left, and where a difference borrows. */
  function SamplesIn(row: seq<byte>, bits: nat, i: nat): (s: seq<int>)
    requires FitsByte(bits) && i < |row|
    ensures |s| == 8 / bits
    ensures forall k | 0 <= k < |s| :: 0 <= s[k] < Levels(bits)
  {
    Digits(row[i], 8 / bits, Levels(bits))
  }

  function LeftsIn(row: seq<byte>, p: DecodeParams, i: nat): (l: seq<int>)
    requires FitsByte(p.bitsPerComponent) && i < |row|
    ensures |l| == 8 / p.bitsPerComponent
    ensures forall k | 0 <= k < |l| :: 0 <= l[k] < Levels(p.bitsPerComponent)
  {
    seq(8 / p.bitsPerComponent, k requires 0 <= k < 8 / p.bitsPerComponent => LeftAt(row, p, i, k))
  }

  /** What stands to the left of sample `k` of byte `i`. */
  function LeftAt(row: seq<byte>, p: DecodeParams, i: nat, k: nat): (s: int)
    requires FitsByte(p.bitsPerComponent) && i < |row| && k < 8 / p.bitsPerComponent
    ensures 0 <= s < Levels(p.bitsPerComponent)
  {
    var n := 8 / p.bitsPerComponent;
    DivIs(i * n + k, n, i, k);
    LeftOf(row, p, i * n + k)
  }

  function BorrowsIn(row: seq<byte>, p: DecodeParams, i: nat): (w: seq<int>)
    requires FitsByte(p.bitsPerComponent) && i < |row|
    ensures |w| == 8 / p.bitsPerComponent
    ensures forall k | 0 <= k < |w| :: w[k] == 0 || w[k] == 1
  {
    var s, l := SamplesIn(row, p.bitsPerComponent, i), LeftsIn(row, p, i);
    seq(|s|, k requires 0 <= k < |s| => if s[k] < l[k] then 1 else 0)
  }

  /** Each sample less the one to its left, modulo the number of levels. */
  function DifferencesIn(row: seq<byte>, p: DecodeParams, i: nat): (d: seq<int>)
    requires FitsByte(p.bitsPerComponent) && i < |row|
    ensures |d| == 8 / p.bitsPerComponent
    ensures forall k | 0 <= k < |d| :: 0 <= d[k] < Levels(p.bitsPerComponent)
  {
    var s, l := SamplesIn(row, p.bitsPerComponent, i), LeftsIn(row, p, i);
    seq(|s|, k requires 0 <= k < |s| => (s[k] - l[k]) % Levels(p.bitsPerComponent))
  }

  lemma WholeByte(bits: nat)
    requires FitsByte(bits)
    ensures Power(Levels(bits), 8 / bits) == 256
  {
    if bits == 1 {
      assert Power(2, 4) == 16;
      assert Power(2, 8) == 2 * (2 * (2 * (2 * Power(2, 4))));
    } else if bits == 2 {
      assert Power(4, 2) == 16;
      assert Power(4, 4) == 4 * (4 * Power(4, 2));
    } else if bits == 4 {
      assert Power(16, 2) == 16 * (16 * Power(16, 0));
    } else {
      assert Power(256, 1) == 256 * Power(256, 0);
    }
  }

  function DifferenceByte(row: seq<byte>, p: DecodeParams, i: nat): byte
    requires FitsByte(p.bitsPerComponent) && i < |row|
  {
    NumberInRange(DifferencesIn(row, p, i), Levels(p.bitsPerComponent));
    WholeByte(p.bitsPerComponent);
    Number(DifferencesIn(row, p, i), Levels(p.bitsPerComponent))
  }

  /** What byte-wise addition is off by: the byte one pixel to the left against the samples one pixel to the
      left, and the borrows carried into the next sample. */
  function Slack(row: seq<byte>, p: DecodeParams, pixel: nat, i: nat): int
    requires FitsByte(p.bitsPerComponent) && i < |row| && pixel > 0
  {
    var q := Levels(p.bitsPerComponent);
    LeftIn(row, pixel, i) - Number(LeftsIn(row, p, i), q) + q * Number(BorrowsIn(row, p, i), q)
  }

  lemma DifferenceByteIs(row: seq<byte>, p: DecodeParams, i: nat)
    requires FitsByte(p.bitsPerComponent) && i < |row|
    ensures var q := Levels(p.bitsPerComponent);
            DifferenceByte(row, p, i) as int
            == row[i] - Number(LeftsIn(row, p, i), q) + q * Number(BorrowsIn(row, p, i), q)
  {
    var bits, q := p.bitsPerComponent, Levels(p.bitsPerComponent);
    var d, s, l, w := DifferencesIn(row, p, i), SamplesIn(row, bits, i), LeftsIn(row, p, i), BorrowsIn(row, p, i);
    forall k | 0 <= k < |d|
      ensures d[k] == s[k] - l[k] + q * w[k]
    {
      WrappedDifference(s[k], l[k], q);
    }
    hide LeftsIn, BorrowsIn, Levels, Number, Digits, Power;
    NumberIsLinear(d, s, l, w, q);
    WholeByte(bits);
    NumberOfDigits(row[i], 8 / bits, q);
  }

  lemma WrappedDifference(s: int, l: int, q: int)
    requires 0 <= s < q && 0 <= l < q
    ensures (s - l) % q == s - l + q * (if s < l then 1 else 0)
  {
    DivIs(s - l, q, if s < l then -1 else 0, s - l + q * (if s < l then 1 else 0));
  }

  lemma ByteRestoredIff(row: seq<byte>, p: DecodeParams, pixel: nat, i: nat)
    requires FitsByte(p.bitsPerComponent) && i < |row| && pixel > 0
    ensures AddBytes(DifferenceByte(row, p, i), LeftIn(row, pixel, i)) == row[i] <==> Slack(row, p, pixel, i) % 256 == 0
  {
    hide DifferenceByte, LeftIn, Number, LeftsIn, BorrowsIn, Levels;
    DifferenceByteIs(row, p, i);
    var slack := Slack(row, p, pixel, i);
    SameModulo(row[i], slack);
  }

  lemma SameModulo(b: byte, slack: int)
    ensures (b + slack) % 256 == b <==> slack % 256 == 0
  {
  }

  function DifferenceSamples(row: seq<byte>, p: DecodeParams): (raw: seq<byte>)
    requires FitsByte(p.bitsPerComponent)
    ensures |raw| == |row|
  {
    seq(|row|, i requires 0 <= i < |row| => DifferenceByte(row, p, i))
  }

  predicate NoSlack(row: seq<byte>, p: DecodeParams, pixel: nat)
    requires FitsByte(p.bitsPerComponent) && pixel > 0
  {
    forall i | 0 <= i < |row| :: Slack(row, p, pixel, i) % 256 == 0
  }

  lemma RowRestoredIff(row: seq<byte>, p: DecodeParams, pixel: nat)
    requires FitsByte(p.bitsPerComponent) && pixel > 0
    ensures UndifferenceRow(DifferenceSamples(row, p), pixel, |row|) == row <==> NoSlack(row, p, pixel)
  {
    hide UndifferenceRow, AddBytes, LeftIn, Slack, DifferenceByte;
    var raw := DifferenceSamples(row, p);
    RestoredBytewiseIff(raw, row, pixel, |row|);
    assert row[..|row|] == row;
    forall i | 0 <= i < |row|
      ensures AddBytes(raw[i], LeftIn(row, pixel, i)) == row[i] <==> Slack(row, p, pixel, i) % 256 == 0
    {
      ByteRestoredIff(row, p, pixel, i);
    }
  }

  // ---------------------------------------------------------------------------------------------
  // The same in terms of samples
  // ---------------------------------------------------------------------------------------------

  /** The carry that reaches sample `k` of a byte from the samples behind it, `c` being what reaches the last one:
      sample by sample, `b` is added where `s` comes out. */
  function CarryInto(s: seq<int>, b: seq<int>, c: int, k: nat): (r: int)
    requires |s| == |b| && k < |s|
    ensures r == c || r == 0 || r == 1
    decreases |s| - k
  {
    if k == |s| - 1 then c else if s[k + 1] < b[k + 1] + CarryInto(s, b, c, k + 1) then 1 else 0
  }

  /** What stands one pixel to the left of each sample is what is added there, carry and all. */
  predicate Carried(s: seq<int>, b: seq<int>, l: seq<int>, c: int, q: nat)
    requires |s| == |b| == |l| && q > 0
  {
    forall k | 0 <= k < |s| :: l[k] == (b[k] + CarryInto(s, b, c, k)) % q
  }

  lemma {:induction false} CarryInFront(s: seq<int>, b: seq<int>, c: int, k: nat)
    requires |s| == |b| && k + 1 < |s|
    ensures var m := |s| - 1;
            CarryInto(s, b, c, k) == CarryInto(s[..m], b[..m], if s[m] < b[m] + c then 1 else 0, k)
    decreases |s| - k
  {
    if k + 2 < |s| {
      CarryInFront(s, b, c, k + 1);
    }
  }

  lemma CarriedStep(s: seq<int>, b: seq<int>, l: seq<int>, c: int, q: nat)
    requires |s| == |b| == |l| > 0 && q > 0
    ensures var m := |s| - 1;
            Carried(s, b, l, c, q) <==>
            l[m] == (b[m] + c) % q && Carried(s[..m], b[..m], l[..m], if s[m] < b[m] + c then 1 else 0, q)
  {
    hide CarryInto;
    var m := |s| - 1;
    assert CarryInto(s, b, c, m) == c by {
      LastCarry(s, b, c);
    }
    forall k | 0 <= k < m
      ensures CarryInto(s, b, c, k) == CarryInto(s[..m], b[..m], if s[m] < b[m] + c then 1 else 0, k)
    {
      CarryInFront(s, b, c, k);
    }
    if Carried(s[..m], b[..m], l[..m], if s[m] < b[m] + c then 1 else 0, q) {
      assert forall k | 0 <= k < m :: l[k] == l[..m][k] && b[k] == b[..m][k];
    }
  }

  lemma LastCarry(s: seq<int>, b: seq<int>, c: int)
    requires |s| == |b| > 0
    ensures CarryInto(s, b, c, |s| - 1) == c
  {
  }

  /** A number is a multiple of a product exactly when its remainder by one factor vanishes and its quotient is a
      multiple of the other. */
  lemma SplitModulo(x: int, r: int, q: nat, p: nat)
    requires q > 0 && p > 0
    ensures q * p > 0
    ensures (q * x + r) % (q * p) == 0 <==> r % q == 0 && (x + r / q) % p == 0
  {
    var t := q * x + r;
    MulMonotonic(q, 1, p);
    assert t % q == r % q by {
      assert r == q * (r / q) + r % q;
      assert t == q * (x + r / q) + r % q;
      DivIs(t, q, x + r / q, r % q);
    }
    if t % (q * p) == 0 {
      var d := t / (q * p);
      assert t == q * (p * d);
      DivIs(t, q, p * d, 0);
      assert q * (x + r / q) == q * (p * d);
      DivIs(x + r / q, p, d, 0);
    }
    if r % q == 0 && (x + r / q) % p == 0 {
      var d := (x + r / q) / p;
      assert x + r / q == p * d;
      assert t == (q * p) * d;
      DivIs(t, q * p, d, 0);
    }
  }

  lemma LastSample(s: int, b: int, l: int, c: int, q: nat)
    requires 0 <= s < q && 0 <= b < q && 0 <= l < q && (c == 0 || c == 1)
    ensures (b + c - l) % q == 0 <==> l == (b + c) % q
    ensures l == (b + c) % q ==>
              (b + c - l) / q + (if s < l then 1 else 0) == if s < b + c then 1 else 0
  {
    var e := if b + c == q then 1 else 0;
    DivIs(b + c, q, e, b + c - q * e);
    var m := (b + c) % q;
    if l <= m {
      DivIs(b + c - l, q, e, m - l);
    } else {
      DivIs(b + c - l, q, e - 1, m - l + q);
    }
  }

  lemma {:induction false} CarriedIff(s: seq<int>, b: seq<int>, l: seq<int>, w: seq<int>, c: int, q: nat)
    requires |s| == |b| == |l| == |w| && q > 1 && (c == 0 || c == 1)
    requires forall k | 0 <= k < |s| ::
               0 <= s[k] < q && 0 <= b[k] < q && 0 <= l[k] < q && w[k] == if s[k] < l[k] then 1 else 0
    ensures Power(q, |s|) > 0
    ensures (Number(b, q) + c - Number(l, q) + q * Number(w, q)) % Power(q, |s|) == 0 <==> Carried(s, b, l, c, q)
    decreases |s|
  {
    hide Carried, Number, Power;
    if s == [] {
      EmptyNumbers(q);
      assert Carried(s, b, l, c, q) by {
        NothingCarried(s, b, l, c, q);
      }
    } else {
      var m := |s| - 1;
      var carry := if s[m] < b[m] + c then 1 else 0;
      CarriedIff(s[..m], b[..m], l[..m], w[..m], carry, q);
      CarriedStep(s, b, l, c, q);
      var nb, nl, nw := Number(b[..m], q), Number(l[..m], q), Number(w[..m], q);
      LastDigits(s, b, l, w, c, q);
      SplitModulo(nb - nl + q * nw + w[m], b[m] + c - l[m], q, Power(q, m));
      LastSample(s[m], b[m], l[m], c, q);
      assert Power(q, |s|) == q * Power(q, m) by {
        PowerStep(q, m);
      }
    }
  }

  lemma EmptyNumbers(q: nat)
    ensures Number([], q) == 0 && Power(q, 0) == 1
  {
  }

  lemma NothingCarried(s: seq<int>, b: seq<int>, l: seq<int>, c: int, q: nat)
    requires |s| == |b| == |l| == 0 && q > 0
    ensures Carried(s, b, l, c, q)
  {
  }

  lemma PowerStep(q: nat, m: nat)
    ensures Power(q, m + 1) == q * Power(q, m)
  {
  }

  lemma LastDigits(s: seq<int>, b: seq<int>, l: seq<int>, w: seq<int>, c: int, q: nat)
    requires |s| == |b| == |l| == |w| > 0
    ensures var m := |s| - 1;
            Number(b, q) + c - Number(l, q) + q * Number(w, q)
            == q * (Number(b[..m], q) - Number(l[..m], q) + q * Number(w[..m], q) + w[m]) + (b[m] + c - l[m])
  {
    hide Number;
    var m := |s| - 1;
    var nb, nl, nw := Number(b[..m], q), Number(l[..m], q), Number(w[..m], q);
    assert b == b[..m] + [b[m]] && l == l[..m] + [l[m]] && w == w[..m] + [w[m]];
    NumberEnds(b[..m], b[m], q);
    NumberEnds(l[..m], l[m], q);
    NumberEnds(w[..m], w[m], q);
    Gather(nb, nl, nw, w[m], q);
  }

  lemma Gather(a: int, b: int, c: int, d: int, q: int)
    ensures a * q - b * q + q * (c * q + d) == q * (a - b + q * c + d)
  {
    Distribute(a, b, c, d, q);
  }

  /** The samples of the byte one pixel to the left of byte `i`; zeros in the first pixel. */
  function Behind(row: seq<byte>, bits: nat, pixel: nat, i: nat): (b: seq<int>)
    requires FitsByte(bits) && i < |row| && pixel > 0
    ensures |b| == 8 / bits
    ensures forall k | 0 <= k < |b| :: 0 <= b[k] < Levels(bits)
  {
    if i >= pixel then SamplesIn(row, bits, i - pixel) else seq(8 / bits, _ => 0)
  }

  /** In each byte, what stands one pixel to the left of a sample is the sample at the same place one pixel's bytes
      to the left, with the carry from the samples behind it. */
  predicate SamplesCarried(row: seq<byte>, p: DecodeParams, pixel: nat)
    requires FitsByte(p.bitsPerComponent) && pixel > 0
  {
    forall i | 0 <= i < |row| ::
      Carried(SamplesIn(row, p.bitsPerComponent, i), Behind(row, p.bitsPerComponent, pixel, i), LeftsIn(row, p, i), 0,
              Levels(p.bitsPerComponent))
  }

  lemma SlackCarriedIff(row: seq<byte>, p: DecodeParams, pixel: nat, i: nat)
    requires FitsByte(p.bitsPerComponent) && pixel > 0 && i < |row|
    ensures Slack(row, p, pixel, i) % 256 == 0 <==>
            Carried(SamplesIn(row, p.bitsPerComponent, i), Behind(row, p.bitsPerComponent, pixel, i), LeftsIn(row, p, i), 0,
                    Levels(p.bitsPerComponent))
  {
    var bits, q := p.bitsPerComponent, Levels(p.bitsPerComponent);
    var s, b, l, w := SamplesIn(row, bits, i), Behind(row, bits, pixel, i), LeftsIn(row, p, i), BorrowsIn(row, p, i);
    BehindIsLeftByte(row, bits, pixel, i);
    hide Carried, Number, Power, LeftsIn, Digits, Behind, LeftIn;
    WholeByte(bits);
    CarriedIff(s, b, l, w, 0, q);
  }

  lemma BehindIsLeftByte(row: seq<byte>, bits: nat, pixel: nat, i: nat)
    requires FitsByte(bits) && pixel > 0 && i < |row|
    ensures Number(Behind(row, bits, pixel, i), Levels(bits)) == LeftIn(row, pixel, i) as int
  {
    WholeByte(bits);
    if i >= pixel {
      NumberOfDigits(row[i - pixel], 8 / bits, Levels(bits));
    } else {
      NumberIsZeroIff(Behind(row, bits, pixel, i), Levels(bits));
    }
  }

  lemma NoSlackIff(row: seq<byte>, p: DecodeParams, pixel: nat)
    requires FitsByte(p.bitsPerComponent) && pixel > 0
    ensures NoSlack(row, p, pixel) <==> SamplesCarried(row, p, pixel)
  {
    hide Slack, Carried, SamplesIn, Behind, LeftsIn, Levels;
    forall i | 0 <= i < |row|
      ensures Slack(row, p, pixel, i) % 256 == 0 <==>
              Carried(SamplesIn(row, p.bitsPerComponent, i), Behind(row, p.bitsPerComponent, pixel, i), LeftsIn(row, p, i), 0,
                      Levels(p.bitsPerComponent))
    {
      SlackCarriedIff(row, p, pixel, i);
    }
  }

  // ---------------------------------------------------------------------------------------------
  // Images of any width
  // ---------------------------------------------------------------------------------------------

  /** A component width of section 7.4.4.4 of ISO 32000-1, and rows whole samples long. */
  predicate Standard(p: DecodeParams) {
    (FitsByte(p.bitsPerComponent) || p.bitsPerComponent == 16) && Geometry(p).Ok?
  }

  /** Horizontal differencing of one row, sample by sample. */
  function TiffRow(row: seq<byte>, p: DecodeParams): (raw: seq<byte>)
    requires Standard(p) && |row| == Geometry(p).value.0
    ensures |raw| == |row|
  {
    GeometryIsTotal(p);
    Whole16(p);
    if p.bitsPerComponent == 16 then DifferenceRow16(row, p.colors) else DifferenceSamples(row, p)
  }

  lemma Whole16(p: DecodeParams)
    requires Geometry(p).Ok?
    ensures p.bitsPerComponent == 16 ==> Geometry(p).value == (2 * (p.colors * p.columns), 2 * p.colors)
  {
    if p.bitsPerComponent == 16 {
      var samples: int := p.colors * p.columns;
      var colors: int := p.colors;
      assert colors * 16 * p.columns == 16 * samples;
    }
  }

  function TiffRows(image: seq<seq<byte>>, p: DecodeParams): (raws: seq<seq<byte>>)
    requires Standard(p) && Rows(image, Geometry(p).value.0)
    ensures |raws| == |image|
  {
    seq(|image|, k requires 0 <= k < |image| => TiffRow(image[k], p))
  }

  /** The rows that adding byte by byte restores: at 16 bits those without a borrow between the bytes of a
      sample, at fewer those whose samples are carried. */
  predicate Restorable(row: seq<byte>, p: DecodeParams)
    requires Standard(p) && |row| == Geometry(p).value.0
  {
    GeometryIsTotal(p);
    Whole16(p);
    if p.bitsPerComponent == 16 then NoBorrow(row, p.colors, |row| / 2) else SamplesCarried(row, p, Geometry(p).value.1)
  }

  /** For every standard component width: an image differenced sample by sample is restored exactly when each
      of its rows can be restored byte by byte. */
  lemma UnTiffRestoresImageIff(image: seq<seq<byte>>, p: DecodeParams, cap: nat)
    requires Standard(p) && Rows(image, Geometry(p).value.0) && |Flatten(image)| <= cap
    ensures UnTiff(Flatten(TiffRows(image, p)), p, cap) == Ok(Flatten(image))
       <==> forall k | 0 <= k < |image| :: Restorable(image[k], p)
  {
    hide Undifference, UndifferenceRow, TiffRow, Restorable, Flatten;
    GeometryIsTotal(p);
    var (rowBytes, pixel) := Geometry(p).value;
    var raws := TiffRows(image, p);
    forall k | 0 <= k < |image|
      ensures UndifferenceRow(raws[k], pixel, rowBytes) == image[k] <==> Restorable(image[k], p)
    {
      TiffRowRestoredIff(image[k], p);
    }
    hide Geometry;
    ImageRestoredIff(raws, image, rowBytes, pixel);
    DivIs(rowBytes * |raws|, rowBytes, |raws|, 0);
  }

  lemma TiffRowRestoredIff(row: seq<byte>, p: DecodeParams)
    requires Standard(p) && |row| == Geometry(p).value.0 && Geometry(p).value.1 > 0
    ensures UndifferenceRow(TiffRow(row, p), Geometry(p).value.1, |row|) == row <==> Restorable(row, p)
  {
    hide UndifferenceRow, NoSlack, NoBorrow, DifferenceRow16, DifferenceSamples, SamplesCarried;
    GeometryIsTotal(p);
    Whole16(p);
    if p.bitsPerComponent == 16 {
      Row16RestoredIff(row, p.colors);
    } else {
      RowRestoredIff(row, p, Geometry(p).value.1);
      NoSlackIff(row, p, Geometry(p).value.1);
    }
  }

  // ---------------------------------------------------------------------------------------------
  // Pixels of whole bytes, and a pixel that is not
  // ---------------------------------------------------------------------------------------------

  /** No sample but the first of its byte is smaller than the one to its left. */
  predicate NoInnerBorrow(row: seq<byte>, p: DecodeParams)
    requires FitsByte(p.bitsPerComponent)
  {
    forall i, k | 0 <= i < |row| && 1 <= k < 8 / p.bitsPerComponent :: BorrowsIn(row, p, i)[k] == 0
  }

  lemma {:induction false} NumberHead(ds: seq<int>, q: nat)
    requires ds != []
    ensures Number(ds, q) == ds[0] * Power(q, |ds| - 1) + Number(ds[1..], q)
  {
    if |ds| == 1 {
      assert ds[..0] == [] && ds[1..] == [];
    } else {
      var n := |ds| - 1;
      NumberHead(ds[..n], q);
      assert ds[..n][1..] == ds[1..][..n - 1];
      NumberEnds(ds[1..][..n - 1], ds[n], q);
      assert ds[1..] == ds[1..][..n - 1] + [ds[n]];
      Regroup(ds[0], Power(q, n - 1), Number(ds[1..][..n - 1], q), q);
    }
  }

  lemma Regroup(a: int, b: int, c: int, q: int)
    ensures (a * b + c) * q == a * (q * b) + c * q
  {
    assert (a * b) * q == a * (q * b);
  }

  lemma {:induction false} NumberIsZeroIff(ds: seq<int>, q: nat)
    requires q > 1 && forall k | 0 <= k < |ds| :: 0 <= ds[k] < q
    ensures Number(ds, q) == 0 <==> forall k | 0 <= k < |ds| :: ds[k] == 0
  {
    if ds != [] {
      var n := |ds| - 1;
      NumberIsZeroIff(ds[..n], q);
      NumberInRange(ds[..n], q);
      var front := Number(ds[..n], q);
      if front > 0 {
        MulMonotonic(q, 1, front);
      }
      assert forall k | 0 <= k < n :: ds[k] == ds[..n][k];
    }
  }

  /** Borrows of a byte vanish modulo 256 exactly when only its first sample borrows. */
  lemma BorrowsVanishIff(w: seq<int>, bits: nat)
    requires FitsByte(bits) && |w| == 8 / bits && forall k | 0 <= k < |w| :: w[k] == 0 || w[k] == 1
    ensures Levels(bits) * Number(w, Levels(bits)) % 256 == 0 <==> forall k | 1 <= k < |w| :: w[k] == 0
  {
    var q, n := Levels(bits), |w|;
    NumberHead(w, q);
    NumberIsZeroIff(w[1..], q);
    NumberInRange(w[1..], q);
    WholeByte(bits);
    assert Power(q, n) == q * Power(q, n - 1);
    assert forall k | 1 <= k < n :: w[k] == w[1..][k - 1];
    var rest := Number(w[1..], q);
    MulMonotonic(q, rest + 1, Power(q, n - 1));
    assert q * (rest + 1) == q * rest + q;
    assert q * (w[0] * Power(q, n - 1) + rest) == w[0] * 256 + q * rest by {
      Regroup(w[0], Power(q, n - 1), rest, q);
    }
    MulMonotonic(q, 0, rest);
    DivIs(q * Number(w, q), 256, w[0], q * rest);
    if rest > 0 {
      MulMonotonic(q, 1, rest);
    }
  }

  /** Where pixels are whole bytes, the byte one pixel to the left holds the samples one pixel to the left. */
  lemma LeftsAreLeftByte(row: seq<byte>, p: DecodeParams, i: nat)
    requires FitsByte(p.bitsPerComponent) && Geometry(p).Ok? && p.colors * p.bitsPerComponent % 8 == 0
    requires |row| == Geometry(p).value.0 && i < |row|
    ensures Number(LeftsIn(row, p, i), Levels(p.bitsPerComponent)) == LeftIn(row, Geometry(p).value.1, i) as int
  {
    GeometryIsTotal(p);
    var n, q, pixel := 8 / p.bitsPerComponent, Levels(p.bitsPerComponent), Geometry(p).value.1;
    WholePixels(p);
    var lefts := LeftsIn(row, p, i);
    if i < pixel {
      forall k | 0 <= k < n
        ensures lefts[k] == 0
      {
        MulMonotonic(n, i + 1, pixel);
        assert n * (i + 1) == i * n + n;
      }
      NumberIsZeroIff(lefts, q);
    } else {
      forall k | 0 <= k < n
        ensures lefts[k] == Digits(row[i - pixel], n, q)[k]
      {
        LeftIsSameSample(row, p, pixel, i, k);
      }
      assert lefts == Digits(row[i - pixel], n, q);
      WholeByte(p.bitsPerComponent);
      NumberOfDigits(row[i - pixel], n, q);
    }
  }

  lemma WholePixels(p: DecodeParams)
    requires FitsByte(p.bitsPerComponent) && Geometry(p).Ok? && p.colors * p.bitsPerComponent % 8 == 0
    ensures var n := 8 / p.bitsPerComponent;
            Geometry(p).value.1 * n == p.colors && Geometry(p).value.0 * n == p.columns * p.colors
  {
    var bits: int, colors: int, columns: int := p.bitsPerComponent, p.colors, p.columns;
    var n, pixel := 8 / bits, colors * bits / 8;
    assert colors * bits == 8 * pixel && pixel * n == colors;
    WholeRow(pixel, columns);
    assert pixel * columns * n == pixel * n * columns;
  }

  lemma WholeRow(pixel: int, columns: int)
    ensures (8 * pixel * columns + 7) / 8 == pixel * columns
  {
    assert 8 * pixel * columns == 8 * (pixel * columns);
    DivIs(8 * (pixel * columns) + 7, 8, pixel * columns, 7);
  }

  lemma LeftIsSameSample(row: seq<byte>, p: DecodeParams, pixel: nat, i: nat, k: nat)
    requires FitsByte(p.bitsPerComponent) && pixel * (8 / p.bitsPerComponent) == p.colors && pixel <= i < |row|
    requires |row| * (8 / p.bitsPerComponent) == p.columns * p.colors && k < 8 / p.bitsPerComponent
    ensures LeftsIn(row, p, i)[k] == Digits(row[i - pixel], 8 / p.bitsPerComponent, Levels(p.bitsPerComponent))[k]
  {
    hide Digits, Levels;
    SamePlace(pixel, i, k, |row|, 8 / p.bitsPerComponent);
  }

  lemma SamePlace(pixel: nat, i: nat, k: nat, length: nat, n: nat)
    requires pixel <= i < length && k < n
    ensures var j := i * n + k;
            pixel * n <= j < length * n && (j - pixel * n) / n == i - pixel && (j - pixel * n) % n == k
  {
    MulMonotonic(n, pixel, i);
    MulMonotonic(n, i + 1, length);
    assert n * (i + 1) == i * n + n;
    assert i * n + k - pixel * n == (i - pixel) * n + k;
    DivIs(i * n + k - pixel * n, n, i - pixel, k);
  }

  /** Where pixels are whole bytes a row can be restored exactly when no sample but the first of its byte is
      smaller than the one to its left; with 8 bits that is every row. */
  lemma WholeBytePixelsIff(row: seq<byte>, p: DecodeParams)
    requires Standard(p) && FitsByte(p.bitsPerComponent) && p.colors * p.bitsPerComponent % 8 == 0
    requires |row| == Geometry(p).value.0
    ensures Restorable(row, p) <==> NoInnerBorrow(row, p)
    ensures p.bitsPerComponent == 8 ==> Restorable(row, p)
  {
    hide Number, LeftsIn, BorrowsIn, LeftIn, Levels, SamplesCarried;
    GeometryIsTotal(p);
    NoSlackIff(row, p, Geometry(p).value.1);
    forall i | 0 <= i < |row|
      ensures Slack(row, p, Geometry(p).value.1, i) % 256 == 0
         <==> forall k | 1 <= k < 8 / p.bitsPerComponent :: BorrowsIn(row, p, i)[k] == 0
    {
      LeftsAreLeftByte(row, p, i);
      BorrowsVanishIff(BorrowsIn(row, p, i), p.bitsPerComponent);
    }
  }

  // ---------------------------------------------------------------------------------------------
  // One component of 1 or 2 bits
  // ---------------------------------------------------------------------------------------------

  /** One component: to the left of each sample stands the one before it, `x` in front of the first; `v` samples are
      no filling. */
  predicate Shifted(s: seq<int>, l: seq<int>, x: int, v: nat)
    requires |s| == |l|
  {
    && 1 <= v <= |s| && l[0] == x
    && (forall k | 1 <= k < v :: l[k] == s[k - 1])
    && (forall k | v <= k < |s| :: l[k] == 0)
  }

  predicate ZerosBefore(s: seq<int>, n: int) {
    forall k | 0 <= k < |s| && k < n :: s[k] == 0
  }

  lemma {:induction false} NoCarry(s: seq<int>, b: seq<int>, k: nat)
    requires |s| == |b| && k < |s|
    requires forall i | 0 <= i < |s| :: s[i] >= 0
    requires forall i | k < i < |s| :: b[i] == 0
    ensures CarryInto(s, b, 0, k) == 0
    decreases |s| - k
  {
    if k + 1 < |s| {
      NoCarry(s, b, k + 1);
    }
  }

  /** Behind nothing but zeros all samples but the last must be zero. */
  lemma BehindZerosIff(s: seq<int>, b: seq<int>, l: seq<int>, v: nat, q: nat)
    requires |s| == |b| == |l| && q > 1 && Shifted(s, l, 0, v)
    requires forall k | 0 <= k < |s| :: 0 <= s[k] < q && b[k] == 0
    ensures Carried(s, b, l, 0, q) <==> ZerosBefore(s, v - 1)
  {
    hide CarryInto;
    forall k | 0 <= k < |s|
      ensures CarryInto(s, b, 0, k) == 0
    {
      NoCarry(s, b, k);
    }
    assert Carried(s, b, l, 0, q) <==> forall k | 0 <= k < |s| :: l[k] == 0;
    if forall k | 0 <= k < |s| :: l[k] == 0 {
      forall k | 0 <= k < v - 1
        ensures s[k] == 0
      {
        assert l[k + 1] == s[k];
      }
    }
  }

  /** A byte that ends in a sample other than zero cannot be followed by one that is carried. */
  lemma OnlyZerosBehind(s: seq<int>, b: seq<int>, l: seq<int>, v: nat, q: nat)
    requires |s| == |b| == |l| >= 4 && q > 1 && Shifted(s, l, b[|s| - 1], v)
    requires forall k | 0 <= k < |s| :: 0 <= s[k] < q && 0 <= b[k] < q && (k < |s| - 1 ==> b[k] == 0)
    requires Carried(s, b, l, 0, q)
    ensures b[|s| - 1] == 0
  {
    FirstCarries(s, b);
    hide CarryInto, Shifted;
    var c0, c1, c2 := CarryInto(s, b, 0, 0), CarryInto(s, b, 0, 1), CarryInto(s, b, 0, 2);
    DivIs(c0, q, 0, c0);
    DivIs(c1, q, 0, c1);
    DivIs(c2, q, 0, c2);
    assert l[0] == c0 && l[2] == c2;
    ThirdLeft(s, l, b[|s| - 1], v);
  }

  lemma FirstCarries(s: seq<int>, b: seq<int>)
    requires |s| == |b| >= 4
    ensures CarryInto(s, b, 0, 0) == if s[1] < b[1] + CarryInto(s, b, 0, 1) then 1 else 0
    ensures CarryInto(s, b, 0, 1) == if s[2] < b[2] + CarryInto(s, b, 0, 2) then 1 else 0
    ensures CarryInto(s, b, 0, 2) == 0 || CarryInto(s, b, 0, 2) == 1
  {
  }

  lemma ThirdLeft(s: seq<int>, l: seq<int>, x: int, v: nat)
    requires |s| == |l| >= 4 && Shifted(s, l, x, v)
    ensures l[0] == x && (l[2] == s[1] || l[2] == 0)
  {
  }

  lemma NextByteIff(s: seq<int>, b: seq<int>, l: seq<int>, v: nat, q: nat)
    requires |s| == |b| == |l| >= 4 && q > 1 && Shifted(s, l, b[|s| - 1], v)
    requires forall k | 0 <= k < |s| :: 0 <= s[k] < q && 0 <= b[k] < q && (k < |s| - 1 ==> b[k] == 0)
    ensures Carried(s, b, l, 0, q) <==> b[|s| - 1] == 0 && ZerosBefore(s, v - 1)
  {
    hide Carried, ZerosBefore;
    if Carried(s, b, l, 0, q) {
      OnlyZerosBehind(s, b, l, v, q);
    }
    if b[|s| - 1] == 0 {
      BehindZerosIff(s, b, l, v, q);
    }
  }

  predicate OneComponent(row: seq<byte>, p: DecodeParams) {
    && FitsByte(p.bitsPerComponent) && p.colors == 1 && Geometry(p).Ok? && |row| == Geometry(p).value.0
  }

  /** How many samples of byte `i` are no filling. */
  function Valid(p: DecodeParams, i: nat): nat
    requires FitsByte(p.bitsPerComponent)
  {
    var n := 8 / p.bitsPerComponent;
    if n * i >= p.columns then 0 else if n * (i + 1) <= p.columns then n else p.columns - n * i
  }

  lemma RowFits(row: seq<byte>, p: DecodeParams)
    requires OneComponent(row, p)
    ensures var n := 8 / p.bitsPerComponent;
            n * (|row| - 1) < p.columns <= n * |row| && Geometry(p).value.1 == 1 && |row| >= 1
  {
    GeometryIsTotal(p);
    var bits: int, columns: int := p.bitsPerComponent, p.columns;
    if bits == 1 {
    } else if bits == 2 {
    } else if bits == 4 {
    } else {
    }
  }

  lemma SampleInByte(row: seq<byte>, bits: nat, i: nat, k: nat)
    requires FitsByte(bits) && i < |row| && k < 8 / bits
    ensures var n := 8 / bits;
            (n * i + k) / n == i && SampleAt(row, bits, n * i + k) == SamplesIn(row, bits, i)[k]
  {
    DivIs(8 / bits * i + k, 8 / bits, i, k);
  }

  /** The last sample of the byte before; zero in front of the row. */
  function Last(row: seq<byte>, bits: nat, i: nat): int
    requires FitsByte(bits) && i < |row|
  {
    if i == 0 then 0 else SamplesIn(row, bits, i - 1)[8 / bits - 1]
  }

  lemma LeftsAreShifted(row: seq<byte>, p: DecodeParams, i: nat)
    requires OneComponent(row, p) && i < |row|
    ensures Shifted(SamplesIn(row, p.bitsPerComponent, i), LeftsIn(row, p, i), Last(row, p.bitsPerComponent, i), Valid(p, i))
  {
    RowFits(row, p);
    var bits := p.bitsPerComponent;
    var n := 8 / bits;
    MulMonotonic(n, i, |row| - 1);
    hide Digits, Levels, Geometry, SampleAt, SamplesIn, LeftsIn, Last;
    forall k | 0 <= k < n
      ensures LeftsIn(row, p, i)[k] ==
              if n * i + k >= p.columns then 0
              else if k > 0 then SamplesIn(row, bits, i)[k - 1]
              else Last(row, bits, i)
    {
      LeftIsBefore(row, p, i, k);
    }
    assert n * (i + 1) == n * i + n;
  }

  lemma LeftIsBefore(row: seq<byte>, p: DecodeParams, i: nat, k: nat)
    requires OneComponent(row, p) && i < |row| && k < 8 / p.bitsPerComponent
    ensures LeftsIn(row, p, i)[k] ==
            if 8 / p.bitsPerComponent * i + k >= p.columns then 0
            else if k > 0 then SamplesIn(row, p.bitsPerComponent, i)[k - 1]
            else Last(row, p.bitsPerComponent, i)
  {
    var bits := p.bitsPerComponent;
    var n := 8 / bits;
    assert LeftsIn(row, p, i)[k] == LeftAt(row, p, i, k);
    hide Digits, Levels, Geometry, SampleAt, SamplesIn;
    assert i * n == n * i;
    MulMonotonic(n, 0, i);
    if k > 0 {
      SampleInByte(row, bits, i, k - 1);
    } else if i > 0 {
      assert n * (i - 1) + (n - 1) == n * i - 1;
      MulMonotonic(n, 1, i);
      SampleInByte(row, bits, i - 1, n - 1);
    }
  }

  predicate CarriedAt(row: seq<byte>, p: DecodeParams, i: nat)
    requires FitsByte(p.bitsPerComponent) && i < |row|
  {
    Carried(SamplesIn(row, p.bitsPerComponent, i), Behind(row, p.bitsPerComponent, 1, i), LeftsIn(row, p, i), 0,
            Levels(p.bitsPerComponent))
  }

  /** Bytes `0` to `i` are zero in all samples but the last of byte `i`. */
  predicate ZerosUpTo(row: seq<byte>, p: DecodeParams, i: nat)
    requires FitsByte(p.bitsPerComponent) && i < |row|
  {
    && (forall h | 0 <= h < i :: ZerosBefore(SamplesIn(row, p.bitsPerComponent, h), 8 / p.bitsPerComponent))
    && ZerosBefore(SamplesIn(row, p.bitsPerComponent, i), Valid(p, i) - 1)
  }

  lemma ZerosOnce(row: seq<byte>, p: DecodeParams, i: nat)
    requires OneComponent(row, p) && 0 < i < |row|
    ensures ZerosUpTo(row, p, i) <==>
            && ZerosUpTo(row, p, i - 1) && Last(row, p.bitsPerComponent, i) == 0
            && ZerosBefore(SamplesIn(row, p.bitsPerComponent, i), Valid(p, i) - 1)
  {
    FullByte(row, p, i - 1);
    var before := SamplesIn(row, p.bitsPerComponent, i - 1);
    hide SamplesIn, Valid, Geometry;
    if ZerosBefore(before, |before| - 1) {
      OneMoreZero(before);
    }
  }

  lemma CarriedOnce(row: seq<byte>, p: DecodeParams, i: nat)
    requires OneComponent(row, p) && p.bitsPerComponent <= 2 && 0 < i < |row| && ZerosUpTo(row, p, i - 1)
    ensures CarriedAt(row, p, i) <==>
            Last(row, p.bitsPerComponent, i) == 0 && ZerosBefore(SamplesIn(row, p.bitsPerComponent, i), Valid(p, i) - 1)
  {
    var bits := p.bitsPerComponent;
    var s, b, l := SamplesIn(row, bits, i), Behind(row, bits, 1, i), LeftsIn(row, p, i);
    LeftsAreShifted(row, p, i);
    FullByte(row, p, i - 1);
    hide Carried, LeftsIn, SamplesIn, Shifted, Levels, Valid, Geometry;
    NextByteIff(s, b, l, Valid(p, i), Levels(bits));
  }

  lemma {:induction false} CarriedUpToIff(row: seq<byte>, p: DecodeParams, i: nat)
    requires OneComponent(row, p) && p.bitsPerComponent <= 2 && i < |row|
    ensures (forall h | 0 <= h <= i :: CarriedAt(row, p, h)) <==> ZerosUpTo(row, p, i)
    decreases i
  {
    hide CarriedAt, ZerosUpTo, ZerosBefore, Geometry;
    if i == 0 {
      CarriedFirst(row, p);
    } else {
      CarriedUpToIff(row, p, i - 1);
      ZerosOnce(row, p, i);
      if ZerosUpTo(row, p, i - 1) {
        CarriedOnce(row, p, i);
      }
    }
  }

  lemma CarriedFirst(row: seq<byte>, p: DecodeParams)
    requires OneComponent(row, p) && row != []
    ensures CarriedAt(row, p, 0) <==> ZerosUpTo(row, p, 0)
  {
    LeftsAreShifted(row, p, 0);
    hide Carried, LeftsIn, SamplesIn, Shifted, Levels, Valid, Geometry;
    BehindZerosIff(SamplesIn(row, p.bitsPerComponent, 0), Behind(row, p.bitsPerComponent, 1, 0), LeftsIn(row, p, 0),
                   Valid(p, 0), Levels(p.bitsPerComponent));
  }

  lemma OneMoreZero(b: seq<int>)
    requires b != [] && ZerosBefore(b, |b| - 1)
    ensures ZerosBefore(b, |b|) <==> b[|b| - 1] == 0
  {
  }

  lemma FullByte(row: seq<byte>, p: DecodeParams, i: nat)
    requires OneComponent(row, p) && i + 1 < |row|
    ensures Valid(p, i) == 8 / p.bitsPerComponent
  {
    RowFits(row, p);
    MulMonotonic(8 / p.bitsPerComponent, i + 1, |row| - 1);
    MulMonotonic(8 / p.bitsPerComponent, i, i + 1);
  }

  /** One component of 1 or 2 bits: a row can be restored exactly when all its samples but the last are zero. */
  lemma OneComponentIff(row: seq<byte>, p: DecodeParams)
    requires Standard(p) && p.colors == 1 && p.bitsPerComponent <= 2 && |row| == Geometry(p).value.0
    ensures forall j | 0 <= j < p.columns :: j / (8 / p.bitsPerComponent) < |row|
    ensures Restorable(row, p) <==> forall j | 0 <= j < p.columns - 1 :: SampleAt(row, p.bitsPerComponent, j) == 0
  {
    GeometryIsTotal(p);
    RowFits(row, p);
    var m := |row| - 1;
    CarriedUpToIff(row, p, m);
    AllZerosIff(row, p);
    hide ZerosUpTo, SampleAt, Carried, SamplesIn, Behind, LeftsIn, Levels, Geometry;
    forall i | 0 <= i < |row|
      ensures CarriedAt(row, p, i) <==>
              Carried(SamplesIn(row, p.bitsPerComponent, i), Behind(row, p.bitsPerComponent, 1, i), LeftsIn(row, p, i), 0,
                      Levels(p.bitsPerComponent))
    {
    }
  }

  lemma AllZerosIff(row: seq<byte>, p: DecodeParams)
    requires OneComponent(row, p) && |row| > 0
    ensures forall j | 0 <= j < p.columns :: j / (8 / p.bitsPerComponent) < |row|
    ensures ZerosUpTo(row, p, |row| - 1)
       <==> forall j | 0 <= j < p.columns - 1 :: SampleAt(row, p.bitsPerComponent, j) == 0
  {
    RowFits(row, p);
    var n := 8 / p.bitsPerComponent;
    hide SampleAt, Geometry, ZerosUpTo;
    forall j | 0 <= j < p.columns
      ensures j / n < |row|
    {
      ByteOf(j, n, |row|);
    }
    if ZerosUpTo(row, p, |row| - 1) {
      forall j | 0 <= j < p.columns - 1
        ensures SampleAt(row, p.bitsPerComponent, j) == 0
      {
        ZeroThere(row, p, j);
      }
    }
    if forall j | 0 <= j < p.columns - 1 :: SampleAt(row, p.bitsPerComponent, j) == 0 {
      ZerosEverywhere(row, p);
    }
  }

  lemma ZeroThere(row: seq<byte>, p: DecodeParams, j: nat)
    requires OneComponent(row, p) && |row| > 0 && ZerosUpTo(row, p, |row| - 1) && j + 1 < p.columns
    requires j / (8 / p.bitsPerComponent) < |row|
    ensures SampleAt(row, p.bitsPerComponent, j) == 0
  {
    RowFits(row, p);
    hide Geometry, Levels;
    var bits, m := p.bitsPerComponent, |row| - 1;
    var n := 8 / bits;
    var i, k := j / n, j % n;
    assert n * (m + 1) == n * m + n;
    assert j == n * i + k;
    SampleInByte(row, bits, i, k);
    assert i < m ==> ZerosBefore(SamplesIn(row, bits, i), n);
  }

  lemma ZerosEverywhere(row: seq<byte>, p: DecodeParams)
    requires OneComponent(row, p) && |row| > 0
    requires forall j | 0 <= j < p.columns - 1 ::
               j / (8 / p.bitsPerComponent) < |row| && SampleAt(row, p.bitsPerComponent, j) == 0
    ensures ZerosUpTo(row, p, |row| - 1)
  {
    RowFits(row, p);
    var bits, m := p.bitsPerComponent, |row| - 1;
    var n := 8 / bits;
    assert n * (m + 1) == n * m + n;
    assert Valid(p, m) == p.columns - n * m;
    hide SampleAt, SamplesIn, Geometry, Levels, Valid;
    forall i | 0 <= i <= m
      ensures ZerosBefore(SamplesIn(row, bits, i), p.columns - 1 - n * i)
    {
      forall k | 0 <= k < n && k < p.columns - 1 - n * i
        ensures SamplesIn(row, bits, i)[k] == 0
      {
        SampleInByte(row, bits, i, k);
        assert n * i + k < p.columns - 1;
        MulMonotonic(n, 0, i);
      }
    }
    forall i | 0 <= i < m
      ensures p.columns - 1 - n * i >= n
    {
      MulMonotonic(n, i + 1, m);
      assert n * (i + 1) == n * i + n;
    }
  }

  lemma ByteOf(j: nat, n: nat, length: nat)
    requires n > 0 && j < n * length
    ensures j / n < length
  {
    if j / n >= length {
      MulMonotonic(n, length, j / n);
    }
  }

  /** Eight pixels of one bit, the seventh set: what comes back has the eighth set as well. */
  lemma OneBitRowIsNotRestored(p: DecodeParams, cap: nat)
    requires p.colors == 1 && p.bitsPerComponent == 1 && p.columns == 8 && cap > 0
    ensures Standard(p) && Geometry(p).Ok? && Geometry(p).value == (1, 1)
    ensures TiffRow([2], p) == [3] && UnTiff(TiffRow([2], p), p, cap) == Ok([3])
  {
    SeventhBit(p);
    assert TiffRow([2], p) == [3];
    var three: seq<byte> := [3];
    UndifferenceNothing(1, 1);
    assert three[..1] == three && three[1..] == [];
    FirstPixelIsKept(three, 1, 1);
    UndifferenceFirstRow(three, 1, 1);
    assert three + [] == three;
    hide UndifferenceRow, Undifference, TiffRow, Standard;
    assert UnTiff(three, p, cap) == Ok(Undifference(three, 1, 1));
  }

  lemma SeventhBit(p: DecodeParams)
    requires p.colors == 1 && p.bitsPerComponent == 1 && p.columns == 8
    ensures DifferenceByte([2], p, 0) == 3
  {
    DifferencesOfTwo(p);
    hide DifferencesIn;
    var d := DifferencesIn([2], p, 0);
    assert d[..7] == [0, 0, 0, 0, 0, 0, 1] && d[..7][..6] == [0, 0, 0, 0, 0, 0];
    NumberIsZeroIff(d[..7][..6], 2);
    NumberEnds(d[..7][..6], 1, 2);
    NumberEnds(d[..7], 1, 2);
    assert d == d[..7] + [1] && d[..7] == d[..7][..6] + [1];
  }

  lemma DifferencesOfTwo(p: DecodeParams)
    requires p.colors == 1 && p.bitsPerComponent == 1 && p.columns == 8
    ensures DifferencesIn([2], p, 0) == [0, 0, 0, 0, 0, 0, 1, 1]
  {
    BitsOfTwo();
    hide Digits;
    var l := LeftsIn([2], p, 0);
    forall k | 0 <= k < 8
      ensures l[k] == if k == 7 then 1 else 0
    {
    }
  }

  lemma BitsOfTwo()
    ensures Digits(2, 8, 2) == [0, 0, 0, 0, 0, 0, 1, 0]
  {
    assert Digits(0, 3, 2) == [0, 0, 0];
    assert Digits(0, 6, 2) == [0, 0, 0, 0, 0, 0];
    assert Digits(1, 7, 2) == Digits(0, 6, 2) + [1];
    assert Digits(2, 8, 2) == Digits(1, 7, 2) + [0];
  }
}
