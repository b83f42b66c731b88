/** Still-image conversion: each grey pixel becomes one character of a ten-step ramp. */
module AsciiImage {
  import opened Common

  /** Darkest first: '@' for black, ' ' for white. */
  const ASCII_CHARS: string := "@%#*+=-:. "

  /** Ramp position of a grey level, scaled to the ramp's last index and truncated. */
  function RampIndex(pixel: Byte): (k: int)
    ensures 0 <= k < |ASCII_CHARS|
    ensures pixel == 0 ==> k == 0
    ensures pixel == 255 ==> k == |ASCII_CHARS| - 1
  {
    pixel * (|ASCII_CHARS| - 1) / 255
  }

  function RampChar(pixel: Byte): (c: char)
    ensures c in ASCII_CHARS
  {
    ASCII_CHARS[RampIndex(pixel)]
  }

  /** Black maps to '@', white to ' '. */
  lemma RampEnds()
    ensures RampChar(0) == '@' && RampChar(255) == ' '
  {
  }

  /** A brighter pixel never maps to an earlier ramp character. */
  lemma RampIndexMonotone(p: Byte, q: Byte)
    requires p <= q
    ensures RampIndex(p) <= RampIndex(q)
  {
    MulMonotone(p, q, |ASCII_CHARS| - 1);
    assert p * (|ASCII_CHARS| - 1) == (|ASCII_CHARS| - 1) * p;
  }

  /** One text line for one pixel row, without its newline. */
  function RowText(row: seq<Byte>): (t: string)
    ensures |t| == |row|
    ensures forall x :: 0 <= x < |row| ==> t[x] == RampChar(row[x])
  {
    seq(|row|, x requires 0 <= x < |row| => RampChar(row[x]))
  }

  /** Every row's text followed by a newline, rows in order. */
  function Layout(pixels: seq<seq<Byte>>): (s: string)
    ensures forall i :: 0 <= i < |s| ==> s[i] in ASCII_CHARS || s[i] == '\n'
  {
    if |pixels| == 0 then ""
    else Layout(pixels[..|pixels| - 1]) + RowText(pixels[|pixels| - 1]) + "\n"
  }

  predicate Rectangular(pixels: seq<seq<Byte>>, cols: nat) {
    forall y :: 0 <= y < |pixels| ==> |pixels[y]| == cols
  }

  /** An image of `rows` rows of `cols` pixels gives `rows * (cols + 1)` characters. */
  lemma {:induction false} LayoutLength(pixels: seq<seq<Byte>>, cols: nat)
    requires Rectangular(pixels, cols)
    ensures |Layout(pixels)| == |pixels| * (cols + 1)
    decreases |pixels|
  {
    if |pixels| > 0 {
      LayoutLength(pixels[..|pixels| - 1], cols);
      assert |pixels| * (cols + 1) == (|pixels| - 1) * (cols + 1) + cols + 1;
    }
  }

  /**
   * Character `x` of line `y` is the ramp character of pixel (y, x), and the line ends
   * with a newline at position `cols`.
   */
  lemma {:induction false} LayoutAt(pixels: seq<seq<Byte>>, cols: nat, y: int, x: int)
    requires Rectangular(pixels, cols)
    requires 0 <= y < |pixels| && 0 <= x <= cols
    ensures 0 <= y * (cols + 1) + x < |Layout(pixels)|
    ensures Layout(pixels)[y * (cols + 1) + x] == if x < cols then RampChar(pixels[y][x]) else '\n'
    decreases |pixels|
  {
    var n := |pixels|;
    var init := pixels[..n - 1];
    LayoutLength(pixels, cols);
    LayoutLength(init, cols);
    RowMajorBound(y, x, n, cols + 1);
    if y < n - 1 {
      LayoutAt(init, cols, y, x);
    } else {
      assert |Layout(init)| == y * (cols + 1);
    }
  }

  /** The conversion loop: ramp characters appended pixel by pixel, a newline after each row. */
  method PixelsToAscii(pixels: seq<seq<Byte>>) returns (asciiStr: string)
    ensures asciiStr == Layout(pixels)
  {
    asciiStr := "";
    var y := 0;
    while y < |pixels|
      invariant 0 <= y <= |pixels|
      invariant asciiStr == Layout(pixels[..y])
    {
      var row := pixels[y];
      var x := 0;
      while x < |row|
        invariant 0 <= x <= |row|
        invariant asciiStr == Layout(pixels[..y]) + RowText(row[..x])
      {
        var index := row[x] * (|ASCII_CHARS| - 1) / 255;
        asciiStr := asciiStr + [ASCII_CHARS[index]];
        x := x + 1;
      }
      asciiStr := asciiStr + "\n";
      assert pixels[..y + 1][..y] == pixels[..y];
      assert row[..x] == row;
      y := y + 1;
    }
    assert pixels[..y] == pixels;
  }
}
