/** The arithmetic of the two renderers: which bytes of the pixel buffer
    each one hands to Core Graphics, and with which width, height, bit
    depth and row stride. Building the bitmap itself is not modelled. */
module Render {
  import opened Wrappers
  import opened DicomData

  /** The parameters given to `CGImage(width:height:bitsPerComponent:
      bitsPerPixel:bytesPerRow:…)`, plus the position in the pixel buffer
      at which the bytes handed to the data provider start. */
  datatype Layout = Layout(
    offset: nat,
    width: nat,
    height: nat,
    bitsPerComponent: nat,
    bitsPerPixel: nat,
    bytesPerRow: nat)

  /** A layout and the bytes behind it. */
  datatype ImageRequest = ImageRequest(layout: Layout, bytes: seq<byte>)

  /** `dataset.integer16(forTag: tag) ?? 0`. */
  function Dimension(ds: DataSet, tag: string): (d: int)
    ensures tag in ds.integers ==> d == ds.integers[tag] as int
    ensures tag !in ds.integers ==> d == 0
    ensures -0x8000 <= d < 0x8000
  {
    match Integer16ForTag(ds, tag)
    case Some(v) => v as int
    case None => 0
  }

  /** Position, in the whole pixel buffer, of the byte shown at column `x`
      of row `y` (8-bit pixels, one byte each). */
  function ByteOffset(l: Layout, x: nat, y: nat): nat {
    l.offset + y * l.bytesPerRow + x * (l.bitsPerPixel / 8)
  }

  /** `imageFromPixelDataLeft`: rejects a missing or non-positive `Rows` or
      `Columns` with `fatalError`; otherwise the whole buffer as an 8-bit
      grayscale image `Columns` wide and `Rows` high whose rows lie
      `2 * Columns` bytes apart. */
  function LeftImage(pixelData: seq<byte>, ds: DataSet): (r: Trapping<ImageRequest>)
    ensures r.Trap? <==> Dimension(ds, "Rows") <= 0 || Dimension(ds, "Columns") <= 0
    ensures r.Value? ==>
      var l := r.value.layout;
      r.value.bytes == pixelData && l.offset == 0 &&
      l.width == Dimension(ds, "Columns") && l.height == Dimension(ds, "Rows") &&
      l.bitsPerComponent == 8 && l.bitsPerPixel == 8 &&
      l.bytesPerRow == 2 * l.width
  {
    var rows := Dimension(ds, "Rows");
    var columns := Dimension(ds, "Columns");
    if !(rows > 0 && columns > 0) then Trap("Invalid dimensions")
    else
      Value(ImageRequest(
        Layout(offset := 0, width := columns, height := rows,
               bitsPerComponent := 8, bitsPerPixel := 8, bytesPerRow := columns * 2),
        pixelData))
  }

  /** `imageFromPixelDataRight`: the same rejection of bad geometry; then,
      with `halfColumns = Columns / 2`, the bytes from `2 * halfColumns` to
      the end of the buffer (`subdata` traps when that start lies past the
      end) as an 8-bit grayscale image `2 * halfColumns` wide, `Rows` high,
      with rows `4 * halfColumns` bytes apart. `Columns` is positive here,
      so Swift's truncating division agrees with Dafny's. */
  function RightImage(pixelData: seq<byte>, ds: DataSet): (r: Trapping<ImageRequest>)
    ensures r.Trap? <==>
      Dimension(ds, "Rows") <= 0 || Dimension(ds, "Columns") <= 0 ||
      |pixelData| < Dimension(ds, "Columns") - Dimension(ds, "Columns") % 2
    ensures r.Value? ==>
      var l := r.value.layout;
      var columns := Dimension(ds, "Columns");
      l.width % 2 == 0 && columns - 1 <= l.width <= columns &&
      (l.width == columns <==> columns % 2 == 0) &&
      l.height == Dimension(ds, "Rows") &&
      l.bitsPerComponent == 8 && l.bitsPerPixel == 8 &&
      l.bytesPerRow == 2 * l.width &&
      l.offset == l.width &&
      l.offset <= |pixelData| &&
      pixelData == pixelData[..l.offset] + r.value.bytes
  {
    var rows := Dimension(ds, "Rows");
    var columns := Dimension(ds, "Columns");
    if !(rows > 0 && columns > 0) then Trap("Invalid dimensions")
    else
      var halfColumns := columns / 2;
      var start := halfColumns * 2;
      if start > |pixelData| then Trap("Range requires lowerBound <= upperBound")
      else
        assert pixelData == pixelData[..start] + pixelData[start..];
        Value(ImageRequest(
          Layout(offset := start, width := halfColumns * 2, height := rows,
                 bitsPerComponent := 8, bitsPerPixel := 8, bytesPerRow := halfColumns * 4),
          pixelData[start..]))
  }

  /** A dataset without `Rows` or without `Columns` reads as 0 and is
      rejected by both renderers. */
  lemma MissingGeometryTraps(pixelData: seq<byte>, ds: DataSet)
    requires "Rows" !in ds.integers || "Columns" !in ds.integers
    ensures LeftImage(pixelData, ds).Trap? && RightImage(pixelData, ds).Trap?
  {
  }

  /** The two renderers side by side: the right one accepts only what the
      left one accepts, has the same height and stride-to-width ratio, and
      shows a suffix of the bytes the left one shows. With an even column
      count each `2 * Columns`-byte row of the buffer is split in two: the
      left image shows its first `Columns` bytes and the right image the
      next `Columns`. */
  lemma HalvesSplitEachRow(pixelData: seq<byte>, ds: DataSet, x: nat, y: nat)
    requires RightImage(pixelData, ds).Value?
    requires Dimension(ds, "Columns") % 2 == 0
    ensures LeftImage(pixelData, ds).Value?
    ensures
      var left := LeftImage(pixelData, ds).value.layout;
      var right := RightImage(pixelData, ds).value.layout;
      var columns := Dimension(ds, "Columns");
      right.width == left.width && right.height == left.height &&
      right.bytesPerRow == left.bytesPerRow &&
      ByteOffset(left, x, y) == y * (2 * columns) + x &&
      ByteOffset(right, x, y) == y * (2 * columns) + columns + x
  {
  }

  /** A 4-column, 2-row frame: the left stride is 8 bytes, and the right
      image starts 4 bytes in, is 4 wide and gets the remaining 16 bytes
      of a 20-byte buffer. */
  lemma FourColumnExample(pixelData: seq<byte>, ds: DataSet)
    requires Integer16ForTag(ds, "Rows") == Some(2) && Integer16ForTag(ds, "Columns") == Some(4)
    requires |pixelData| == 20
    ensures LeftImage(pixelData, ds).Value? && LeftImage(pixelData, ds).value.layout.bytesPerRow == 8
    ensures RightImage(pixelData, ds).Value?
    ensures RightImage(pixelData, ds).value.layout.offset == 4
    ensures RightImage(pixelData, ds).value.layout.width == 4
    ensures |RightImage(pixelData, ds).value.bytes| == 16
  {
  }
}
