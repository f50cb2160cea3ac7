/**
 * The `GrayscaleImage` effect: scan a 2D array for its smallest and largest
 * cell, map every cell linearly onto 0..255, and write one opaque grey RGBA
 * pixel per cell into the canvas buffer through a running index.
 */
module Greyscale {
  import opened Wrappers
  import opened Grid

  /** A value of the canvas's `Uint8ClampedArray`. */
  type Byte = x: int | 0 <= x < 256

  /** The smallest and largest cell found by the scan. */
  datatype Bounds = Bounds(lo: real, hi: real)

  /** Every cell lies between the bounds. */
  ghost predicate Bounded(data: seq<seq<real>>, b: Bounds)
  {
    forall i, j :: 0 <= i < |data| && 0 <= j < NumCols(data) && j < |data[i]| ==> b.lo <= data[i][j] <= b.hi
  }

  /** `b` holds the minimum and the maximum: it bounds every cell and both ends are cells. */
  ghost predicate IsBoundsOf(data: seq<seq<real>>, b: Bounds)
  {
    && Bounded(data, b)
    && (exists i, j :: 0 <= i < |data| && 0 <= j < NumCols(data) && j < |data[i]| && data[i][j] == b.lo)
    && (exists i, j :: 0 <= i < |data| && 0 <= j < NumCols(data) && j < |data[i]| && data[i][j] == b.hi)
  }

  /**
   * The nested min/max loop. The source starts from `Infinity` and
   * `-Infinity`; `seen` stands for "a finite value has replaced them", and a
   * grid without cells leaves them in place, which is `None` here.
   */
  method ScanBounds(data: seq<seq<real>>) returns (bounds: Option<Bounds>)
    requires WideEnough(data)
    ensures bounds.None? <==> |data| == 0 || NumCols(data) == 0
    ensures bounds.Some? ==> IsBoundsOf(data, bounds.value)
  {
    var rows, cols := |data|, NumCols(data);
    var seen := false;
    var minVal, maxVal := 0.0, 0.0;
    ghost var minI, minJ, maxI, maxJ := 0, 0, 0, 0;
    var i := 0;
    while i < rows
      invariant 0 <= i <= rows
      invariant seen <==> i > 0 && cols > 0
      invariant seen ==> forall p, q :: 0 <= p < i && 0 <= q < cols ==> minVal <= data[p][q] <= maxVal
      invariant seen ==> minI < i && minJ < cols && data[minI][minJ] == minVal
      invariant seen ==> maxI < i && maxJ < cols && data[maxI][maxJ] == maxVal
    {
      var j := 0;
      while j < cols
        invariant 0 <= j <= cols
        invariant seen <==> (i > 0 || j > 0) && cols > 0
        invariant seen ==> forall p, q :: 0 <= p < i && 0 <= q < cols ==> minVal <= data[p][q] <= maxVal
        invariant seen ==> forall q :: 0 <= q < j ==> minVal <= data[i][q] <= maxVal
        invariant seen ==> (minI < i && minJ < cols) || (minI == i && minJ < j)
        invariant seen ==> (maxI < i && maxJ < cols) || (maxI == i && maxJ < j)
        invariant seen ==> data[minI][minJ] == minVal && data[maxI][maxJ] == maxVal
      {
        var value := data[i][j];
        if !seen || value < minVal {
          minVal := value;
          minI, minJ := i, j;
        }
        if !seen || value > maxVal {
          maxVal := value;
          maxI, maxJ := i, j;
        }
        seen := true;
        j := j + 1;
      }
      i := i + 1;
    }
    if seen {
      bounds := Some(Bounds(minVal, maxVal));
    } else {
      bounds := None;
    }
  }

  /** The spread of the values, or 1 when they are all equal. */
  function Range(b: Bounds): (r: real)
    ensures b.lo <= b.hi ==> r > 0.0
    ensures r == b.hi - b.lo || (b.hi == b.lo && r == 1.0)
  {
    if b.hi - b.lo == 0.0 then 1.0 else b.hi - b.lo
  }

  /** `Math.round`: halves round up. */
  function Round(x: real): (n: int)
    ensures x - 0.5 < n as real <= x + 0.5
  {
    (x + 0.5).Floor
  }

  /** The grey level of one cell. */
  function Level(v: real, b: Bounds): int
    requires b.lo <= b.hi
  {
    Round((v - b.lo) / Range(b) * 255.0)
  }

  /** A cell between the bounds gets a level in 0..255. */
  lemma LevelInRange(v: real, b: Bounds)
    requires b.lo <= v <= b.hi
    ensures 0 <= Level(v, b) <= 255
  {
    var r := Range(b);
    var t := (v - b.lo) / r;
    QuotientAtMostOne(v - b.lo, r);
    assert 0.0 <= t * 255.0 <= 255.0;
  }

  lemma QuotientAtMostOne(a: real, r: real)
    requires 0.0 <= a <= r && r > 0.0
    ensures 0.0 <= a / r <= 1.0
  {
  }

  lemma QuotientMonotone(a: real, c: real, r: real)
    requires a <= c && r > 0.0
    ensures a / r <= c / r
  {
  }

  /** A larger cell is never darker. */
  lemma LevelMonotone(v: real, w: real, b: Bounds)
    requires b.lo <= b.hi && v <= w
    ensures Level(v, b) <= Level(w, b)
  {
    var r := Range(b);
    var s, t := (v - b.lo) / r, (w - b.lo) / r;
    QuotientMonotone(v - b.lo, w - b.lo, r);
    assert s * 255.0 <= t * 255.0;
  }

  /** The minimum is black. */
  lemma MinIsBlack(b: Bounds)
    requires b.lo <= b.hi
    ensures Level(b.lo, b) == 0
  {
  }

  /** The maximum is white when the values are not all equal. */
  lemma MaxIsWhite(b: Bounds)
    requires b.lo < b.hi
    ensures Level(b.hi, b) == 255
  {
    assert (b.hi - b.lo) / Range(b) == 1.0;
  }

  /** When all values are equal the whole image is black. */
  lemma ConstantIsBlack(v: real, b: Bounds)
    requires b.lo == b.hi == v
    ensures Level(v, b) == 0
  {
  }

  /** The byte at offset `n` of the buffer: three copies of a cell's level, then an opaque alpha. */
  function ExpectedByte(data: seq<seq<real>>, b: Bounds, n: nat): int
    requires WideEnough(data) && b.lo <= b.hi
    requires n < 4 * (|data| * NumCols(data))
  {
    if n % 4 == 3 then 255
    else
      CellAtIndex(data, n / 4);
      Level(data[n / 4 / NumCols(data)][n / 4 % NumCols(data)], b)
  }

  /** The buffer holds the grey image of `data`. */
  ghost predicate IsGreyImage(data: seq<seq<real>>, b: Bounds, rgba: seq<int>)
  {
    && WideEnough(data) && b.lo <= b.hi
    && |rgba| == 4 * (|data| * NumCols(data))
    && forall n :: 0 <= n < |rgba| ==> rgba[n] == ExpectedByte(data, b, n)
  }

  /** Pixel (`i`, `j`) is bytes `4(i * cols + j)` to `4(i * cols + j) + 3`: R = G = B = the cell's level, A = 255. */
  lemma PixelBytes(data: seq<seq<real>>, b: Bounds, i: nat, j: nat)
    requires WideEnough(data) && b.lo <= b.hi
    requires i < |data| && j < NumCols(data)
    ensures 4 * (i * NumCols(data) + j) + 4 <= 4 * (|data| * NumCols(data))
    ensures ExpectedByte(data, b, 4 * (i * NumCols(data) + j)) == Level(data[i][j], b)
    ensures ExpectedByte(data, b, 4 * (i * NumCols(data) + j) + 1) == Level(data[i][j], b)
    ensures ExpectedByte(data, b, 4 * (i * NumCols(data) + j) + 2) == Level(data[i][j], b)
    ensures ExpectedByte(data, b, 4 * (i * NumCols(data) + j) + 3) == 255
  {
    var cols := NumCols(data);
    var p := i * cols + j;
    CellAtRowMajor(data, i, j);
    RowMajorDivMod(p, 0, 4);
    RowMajorDivMod(p, 1, 4);
    RowMajorDivMod(p, 2, 4);
    RowMajorDivMod(p, 3, 4);
    assert p * 4 == 4 * p;
  }

  /** Four consecutive `imageData.data[index++] = ...` writes: red, green and blue get `grey`, alpha 255. */
  method WritePixel(pixels: array<Byte>, index: nat, grey: Byte) returns (next: nat)
    requires index + 4 <= pixels.Length
    modifies pixels
    ensures next == index + 4
    ensures pixels[index] == grey && pixels[index + 1] == grey && pixels[index + 2] == grey && pixels[index + 3] == 255
    ensures forall n :: 0 <= n < pixels.Length && (n < index || n >= next) ==> pixels[n] == old(pixels[n])
  {
    next := index;
    pixels[next] := grey;
    next := next + 1;
    pixels[next] := grey;
    next := next + 1;
    pixels[next] := grey;
    next := next + 1;
    pixels[next] := 255;
    next := next + 1;
  }

  /** The second loop nest: four bytes per cell written at `index++`. */
  method FillPixels(data: seq<seq<real>>, b: Bounds, pixels: array<Byte>) returns (index: nat)
    requires WideEnough(data) && Bounded(data, b) && b.lo <= b.hi
    requires pixels.Length == 4 * (|data| * NumCols(data))
    modifies pixels
    ensures index == pixels.Length
    ensures IsGreyImage(data, b, pixels[..])
  {
    var rows, cols := |data|, NumCols(data);
    index := 0;
    ghost var cells := 0;
    var i := 0;
    while i < rows
      invariant 0 <= i <= rows
      invariant cells == i * cols && cells <= rows * cols && index == 4 * cells
      invariant forall n :: 0 <= n < index ==> pixels[n] == ExpectedByte(data, b, n)
    {
      var j := 0;
      while j < cols
        invariant 0 <= j <= cols
        invariant cells == i * cols + j && cells <= rows * cols && index == 4 * cells
        invariant forall n :: 0 <= n < index ==> pixels[n] == ExpectedByte(data, b, n)
      {
        PixelBytes(data, b, i, j);
        LevelInRange(data[i][j], b);
        var normalizedValue := Level(data[i][j], b);
        index := WritePixel(pixels, index, normalizedValue);
        ExtendImage(data, b, pixels[..], cells);
        cells := cells + 1;
        j := j + 1;
      }
      assert i * cols + cols == (i + 1) * cols;
      assert (i + 1) * cols <= rows * cols;
      i := i + 1;
    }
  }

  /** Writing the four bytes of pixel `p` after the earlier ones extends the grey image by one pixel. */
  lemma ExtendImage(data: seq<seq<real>>, b: Bounds, s: seq<int>, p: nat)
    requires WideEnough(data) && b.lo <= b.hi
    requires p < |data| * NumCols(data) && |s| == 4 * (|data| * NumCols(data))
    requires forall n :: 0 <= n < 4 * p ==> s[n] == ExpectedByte(data, b, n)
    requires s[4 * p] == ExpectedByte(data, b, 4 * p) && s[4 * p + 1] == ExpectedByte(data, b, 4 * p + 1)
    requires s[4 * p + 2] == ExpectedByte(data, b, 4 * p + 2) && s[4 * p + 3] == ExpectedByte(data, b, 4 * p + 3)
    ensures forall n :: 0 <= n < 4 * p + 4 ==> s[n] == ExpectedByte(data, b, n)
  {
    forall n | 0 <= n < 4 * p + 4 ensures s[n] == ExpectedByte(data, b, n) {
      if n >= 4 * p {
        assert n == 4 * p || n == 4 * p + 1 || n == 4 * p + 2 || n == 4 * p + 3;
      }
    }
  }

  /** What the effect leaves on the canvas. */
  datatype Canvas =
    | Untouched
    | Thrown(width: nat, height: nat)
    | Drawn(width: nat, height: nat, rgba: seq<Byte>)

  /**
   * The whole effect. `hasCanvas` and `hasContext` stand for the canvas ref
   * and its 2D context being available. A grid whose first row is empty
   * resizes the canvas to width 0, and `createImageData(0, rows)` then throws.
   */
  method Render(data: seq<seq<real>>, hasCanvas: bool, hasContext: bool) returns (c: Canvas)
    requires WideEnough(data)
    ensures |data| == 0 || !hasCanvas || !hasContext ==> c == Untouched
    ensures |data| > 0 && hasCanvas && hasContext && NumCols(data) == 0 ==> c == Thrown(0, |data|)
    ensures |data| > 0 && hasCanvas && hasContext && NumCols(data) > 0 ==>
      && c.Drawn? && c.width == NumCols(data) && c.height == |data|
      && exists b :: IsBoundsOf(data, b) && IsGreyImage(data, b, c.rgba)
  {
    if |data| == 0 || !hasCanvas {
      return Untouched;
    }
    if !hasContext {
      return Untouched;
    }
    var rows, cols := |data|, |data[0]|;
    var bounds := ScanBounds(data);
    if bounds.None? {
      return Thrown(cols, rows);
    }
    var b := bounds.value;
    assert b.lo <= data[0][0] <= b.hi;
    var pixels := new Byte[4 * (rows * cols)];
    var index := FillPixels(data, b, pixels);
    c := Drawn(cols, rows, pixels[..]);
  }

  /** The scan's result is unique: any two candidate bounds of the same grid agree. */
  lemma BoundsUnique(data: seq<seq<real>>, b: Bounds, b': Bounds)
    requires IsBoundsOf(data, b) && IsBoundsOf(data, b')
    ensures b == b'
  {
    var i, j :| 0 <= i < |data| && 0 <= j < NumCols(data) && j < |data[i]| && data[i][j] == b.lo;
    var i', j' :| 0 <= i' < |data| && 0 <= j' < NumCols(data) && j' < |data[i']| && data[i'][j'] == b'.lo;
    var k, l :| 0 <= k < |data| && 0 <= l < NumCols(data) && l < |data[k]| && data[k][l] == b.hi;
    var k', l' :| 0 <= k' < |data| && 0 <= l' < NumCols(data) && l' < |data[k']| && data[k'][l'] == b'.hi;
  }

  /** Every colour byte of the drawn image lies in 0..255, the minimum cell's pixel is black and the maximum's white when they differ. */
  lemma ImageExtremes(data: seq<seq<real>>, b: Bounds, rgba: seq<int>, i: nat, j: nat)
    requires IsBoundsOf(data, b) && IsGreyImage(data, b, rgba)
    requires i < |data| && j < NumCols(data)
    ensures 4 * (i * NumCols(data) + j) + 3 < |rgba|
    ensures 0 <= rgba[4 * (i * NumCols(data) + j)] <= 255
    ensures data[i][j] == b.lo ==> rgba[4 * (i * NumCols(data) + j)] == 0
    ensures data[i][j] == b.hi && b.lo < b.hi ==> rgba[4 * (i * NumCols(data) + j)] == 255
    ensures rgba[4 * (i * NumCols(data) + j) + 3] == 255
  {
    PixelBytes(data, b, i, j);
    LevelInRange(data[i][j], b);
    if data[i][j] == b.hi && b.lo < b.hi {
      MaxIsWhite(b);
    }
  }
}
