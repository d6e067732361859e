/**
  src/fakedetector/analyzers/_video_experimental.py, _block_descriptor: 9 x 16 block means of an
  RGB frame, rounded half up, every pixel in exactly one block.
 */
module BlockDescriptor {
  import opened Wrappers
  import opened Integers
  import VideoGroups

  const ROWS: nat := 9
  const COLUMNS: nat := 16
  const CHANNELS: nat := 3

  /** frame[y][x][channel] */
  type Image = seq<seq<seq<int>>>

  ghost predicate Pixels(frame: Image, width: nat) {
    && (forall y :: 0 <= y < |frame| ==> |frame[y]| == width)
    && (forall y, x :: 0 <= y < |frame| && 0 <= x < |frame[y]| ==> |frame[y][x]| == CHANNELS)
  }

  ghost predicate EightBit(frame: Image) {
    forall y, x, c :: 0 <= y < |frame| && 0 <= x < |frame[y]| && 0 <= c < |frame[y][x]| ==> 0 <= frame[y][x][c] <= 255
  }

  /** Where block i begins along an axis. */
  function Cut(extent: nat, parts: nat, i: nat): nat
    requires parts > 0
  {
    i * extent / parts
  }

  /** The cuts run from 0 to the extent, and each is its share of the extent, rounded down. */
  lemma CutsAreEven(extent: nat, parts: nat, i: nat)
    requires 0 < parts
    ensures parts * Cut(extent, parts, i) <= i * extent < parts * Cut(extent, parts, i) + parts
    ensures Cut(extent, parts, 0) == 0 && Cut(extent, parts, parts) == extent
  {
    FloorUnique(i * extent, parts, Cut(extent, parts, i));
    FloorUnique(parts * extent, parts, extent);
  }

  lemma CutsAscend(extent: nat, parts: nat, i: nat)
    requires 0 < parts <= extent && i < parts
    ensures 0 <= Cut(extent, parts, i) < Cut(extent, parts, i + 1) <= extent
  {
    FloorUnique(i * extent, parts, Cut(extent, parts, i));
    assert (i + 1) * extent == i * extent + extent;
    FloorMonotone(i * extent + parts, (i + 1) * extent, parts);
    FloorShift(i * extent, parts, 1);
    MulMonotone(extent, i + 1, parts);
    FloorMonotone((i + 1) * extent, parts * extent, parts);
    FloorShift(0, parts, extent);
  }

  /** The block a position falls in. */
  function BlockOf(v: nat, extent: nat, parts: nat): int
    requires extent > 0
  {
    ((v + 1) * parts - 1) / extent
  }

  lemma BlockOfInRange(v: nat, extent: nat, parts: nat)
    requires 0 < parts && v < extent
    ensures 0 <= BlockOf(v, extent, parts) < parts
  {
    MulMonotone(parts, v + 1, extent);
    MulMonotone(parts, 1, v + 1);
  }

  /** Along an axis the blocks partition the positions. */
  lemma BlocksPartition(v: nat, extent: nat, parts: nat, i: nat)
    requires 0 < parts <= extent && v < extent && i < parts
    ensures 0 <= BlockOf(v, extent, parts) < parts
    ensures Cut(extent, parts, i) <= v < Cut(extent, parts, i + 1) <==> i == BlockOf(v, extent, parts)
  {
    BlockOfInRange(v, extent, parts);
    BlockOfIs(v, extent, parts, i);
    FloorAtMost(i * extent, parts, v);
    FloorAtMost((i + 1) * extent, parts, v);
  }

  lemma BlockOfIs(v: nat, extent: nat, parts: nat, i: nat)
    requires 0 < parts && v < extent
    ensures i == BlockOf(v, extent, parts) <==> i * extent < (v + 1) * parts <= (i + 1) * extent
  {
    FloorUnique((v + 1) * parts - 1, extent, i);
  }

  lemma FloorAtMost(a: int, b: int, v: int)
    requires b > 0
    ensures a / b <= v <==> a < (v + 1) * b
  {
    FloorUnique(a, b, a / b);
    if a / b <= v {
      MulMonotone(b, a / b + 1, v + 1);
    } else {
      MulMonotone(b, v + 1, a / b);
    }
  }

  // ----- sums and rounded means of blocks

  function LineSum(line: seq<seq<int>>, x0: nat, x1: nat, c: nat): int
    requires x0 <= x1 <= |line| && forall x :: 0 <= x < |line| ==> |line[x]| > c
  {
    if x0 == x1 then 0 else LineSum(line, x0, x1 - 1, c) + line[x1 - 1][c]
  }

  function BlockSum(frame: Image, width: nat, y0: nat, y1: nat, x0: nat, x1: nat, c: nat): int
    requires Pixels(frame, width) && y0 <= y1 <= |frame| && x0 <= x1 <= width && c < CHANNELS
  {
    if y0 == y1 then 0
    else BlockSum(frame, width, y0, y1 - 1, x0, x1, c) + LineSum(frame[y1 - 1], x0, x1, c)
  }

  /** The frame with one channel of one pixel changed. */
  function Changed(frame: Image, y: nat, x: nat, d: nat, v: int): Image
    requires y < |frame| && x < |frame[y]| && d < |frame[y][x]|
  {
    frame[y := frame[y][x := frame[y][x][d := v]]]
  }

  lemma {:induction false} LineSumOfChange(line: seq<seq<int>>, x0: nat, x1: nat, c: nat, x: nat, d: nat, v: int)
    requires x0 <= x1 <= |line| && forall k :: 0 <= k < |line| ==> |line[k]| == CHANNELS
    requires c < CHANNELS && d < CHANNELS && x < |line|
    ensures LineSum(line[x := line[x][d := v]], x0, x1, c)
         == LineSum(line, x0, x1, c) + if x0 <= x < x1 && d == c then v - line[x][c] else 0
  {
    if x0 == x1 {
    } else {
      LineSumOfChange(line, x0, x1 - 1, c, x, d, v);
    }
  }

  /** Every pixel counts once, in its block and its channel, and in no other. */
  lemma {:induction false} BlockSumOfChange(frame: Image, width: nat, y0: nat, y1: nat, x0: nat, x1: nat, c: nat, y: nat, x: nat, d: nat, v: int)
    requires Pixels(frame, width) && y0 <= y1 <= |frame| && x0 <= x1 <= width && c < CHANNELS
    requires y < |frame| && x < width && d < CHANNELS
    ensures Pixels(Changed(frame, y, x, d, v), width)
    ensures BlockSum(Changed(frame, y, x, d, v), width, y0, y1, x0, x1, c)
         == BlockSum(frame, width, y0, y1, x0, x1, c)
            + if y0 <= y < y1 && x0 <= x < x1 && d == c then v - frame[y][x][c] else 0
  {
    if y0 == y1 {
    } else {
      BlockSumOfChange(frame, width, y0, y1 - 1, x0, x1, c, y, x, d, v);
      if y == y1 - 1 {
        LineSumOfChange(frame[y], x0, x1, c, x, d, v);
      }
    }
  }

  lemma {:induction false} BlackLine(line: seq<seq<int>>, x0: nat, x1: nat, c: nat)
    requires x0 <= x1 <= |line| && forall x :: 0 <= x < |line| ==> |line[x]| > c && line[x][c] == 0
    ensures LineSum(line, x0, x1, c) == 0
  {
    if x0 == x1 {
    } else {
      BlackLine(line, x0, x1 - 1, c);
    }
  }

  /** Where the channel is 0 everywhere, every block adds up to 0. */
  lemma {:induction false} BlackBlock(frame: Image, width: nat, y0: nat, y1: nat, x0: nat, x1: nat, c: nat)
    requires Pixels(frame, width) && y0 <= y1 <= |frame| && x0 <= x1 <= width && c < CHANNELS
    requires forall y, x :: 0 <= y < |frame| && 0 <= x < |frame[y]| ==> frame[y][x][c] == 0
    ensures BlockSum(frame, width, y0, y1, x0, x1, c) == 0
  {
    if y0 == y1 {
    } else {
      BlackBlock(frame, width, y0, y1 - 1, x0, x1, c);
      BlackLine(frame[y1 - 1], x0, x1, c);
    }
  }

  function RoundedMean(sum: int, area: nat): int
    requires area > 0
  {
    (sum + area / 2) / area
  }

  /** The mean of one block in one channel. */
  function Cell(frame: Image, width: nat, row: nat, column: nat, c: nat): int
    requires Pixels(frame, width) && |frame| >= ROWS && width >= COLUMNS
    requires row < ROWS && column < COLUMNS && c < CHANNELS
  {
    CutsAscend(|frame|, ROWS, row);
    CutsAscend(width, COLUMNS, column);
    var y0, y1 := Cut(|frame|, ROWS, row), Cut(|frame|, ROWS, row + 1);
    var x0, x1 := Cut(width, COLUMNS, column), Cut(width, COLUMNS, column + 1);
    MulStrict(y1 - y0, 0, x1 - x0);
    RoundedMean(BlockSum(frame, width, y0, y1, x0, x1, c), (y1 - y0) * (x1 - x0))
  }

  /** The descriptor, flattened row by row, block by block, channel by channel. */
  function CellAt(frame: Image, width: nat, k: nat): int
    requires Pixels(frame, width) && |frame| >= ROWS && width >= COLUMNS && k < VideoGroups.BLOCKS
  {
    Cell(frame, width, k / 48, k / 3 % 16, k % 3)
  }

  method Describe(frame: Image, width: nat) returns (r: Result<seq<int>>)
    requires Pixels(frame, width)
    ensures r.Failure? <==> |frame| < 9 || width < 16
    ensures r.Success? ==> |r.value| == VideoGroups.BLOCKS
                           && forall k :: 0 <= k < VideoGroups.BLOCKS ==> r.value[k] == CellAt(frame, width, k)
  {
    if |frame| < 9 || width < 16 {
      return Failure("frame too small for descriptor");
    }
    var output := new int[VideoGroups.BLOCKS];
    for row := 0 to ROWS
      invariant forall k :: 0 <= k < row * 48 ==> output[k] == CellAt(frame, width, k)
    {
      for column := 0 to COLUMNS
        invariant forall k :: 0 <= k < row * 48 + column * 3 ==> output[k] == CellAt(frame, width, k)
      {
        for c := 0 to CHANNELS
          invariant forall k :: 0 <= k < row * 48 + column * 3 + c ==> output[k] == CellAt(frame, width, k)
        {
          var k := row * 48 + column * 3 + c;
          FlatIndex(row, column, c);
          output[k] := Cell(frame, width, row, column, c);
        }
      }
    }
    r := Success(output[..]);
  }

  /** Where the descriptor holds the mean of a block: row by row, block by block, channel by channel. */
  lemma CellsAreFlattened(frame: Image, width: nat, row: nat, column: nat, c: nat)
    requires Pixels(frame, width) && |frame| >= 9 && width >= 16 && row < 9 && column < 16 && c < 3
    ensures row * 48 + column * 3 + c < 432
    ensures CellAt(frame, width, row * 48 + column * 3 + c) == Cell(frame, width, row, column, c)
  {
    FlatIndex(row, column, c);
  }

  lemma FlatIndex(row: nat, column: nat, c: nat)
    requires row < ROWS && column < COLUMNS && c < CHANNELS
    ensures var k := row * 48 + column * 3 + c;
            k < VideoGroups.BLOCKS && k / 48 == row && k / 3 % 16 == column && k % 3 == c
  {
  }

  // ----- what the means promise

  lemma {:induction false} LineSumBounds(line: seq<seq<int>>, x0: nat, x1: nat, c: nat)
    requires x0 <= x1 <= |line| && forall x :: 0 <= x < |line| ==> |line[x]| > c && 0 <= line[x][c] <= 255
    ensures 0 <= LineSum(line, x0, x1, c) <= 255 * (x1 - x0)
  {
    if x0 == x1 {
    } else {
      LineSumBounds(line, x0, x1 - 1, c);
    }
  }

  lemma {:induction false} BlockSumBounds(frame: Image, width: nat, y0: nat, y1: nat, x0: nat, x1: nat, c: nat)
    requires Pixels(frame, width) && EightBit(frame)
    requires y0 <= y1 <= |frame| && x0 <= x1 <= width && c < CHANNELS
    ensures 0 <= BlockSum(frame, width, y0, y1, x0, x1, c) <= 255 * ((y1 - y0) * (x1 - x0))
  {
    if y0 == y1 {
    } else {
      BlockSumBounds(frame, width, y0, y1 - 1, x0, x1, c);
      LineSumBounds(frame[y1 - 1], x0, x1, c);
      OneMoreRow(y1 - y0, x1 - x0);
    }
  }

  lemma OneMoreRow(rows: int, columns: int)
    ensures rows * columns == (rows - 1) * columns + columns
  {
  }

  /** Rounding half up: the mean is off by at most half a step, and downwards by strictly less. */
  lemma NearestInteger(sum: int, area: nat, top: nat)
    requires area > 0 && 0 <= sum <= top * area
    ensures var m := RoundedMean(sum, area);
            && 2 * (m * area) - area <= 2 * sum < 2 * (m * area) + area
            && 0 <= m <= top
  {
    var m := RoundedMean(sum, area);
    FloorUnique(sum + area / 2, area, m);
    assert area * (m + 1) == area * m + area;
    assert area * (top + 1) == area * top + area;
    if m > top {
      MulMonotone(area, top + 1, m);
    }
    if m < 0 {
      MulMonotone(area, m + 1, 0);
    }
  }

  /** A descriptor of an 8-bit frame is a valid frame of the correspondence measurement. */
  lemma DescriptorIsValidFrame(frame: Image, width: nat, output: seq<int>)
    requires Pixels(frame, width) && EightBit(frame) && |frame| >= ROWS && width >= COLUMNS
    requires |output| == VideoGroups.BLOCKS && forall k :: 0 <= k < VideoGroups.BLOCKS ==> output[k] == CellAt(frame, width, k)
    ensures VideoGroups.ValidFrame(output)
  {
    forall k | 0 <= k < VideoGroups.BLOCKS
      ensures 0 <= output[k] <= 255
    {
      CellInRange(frame, width, k / 48, k / 3 % 16, k % 3);
    }
  }

  /** Every block mean is the nearest integer to the mean of that block's pixels, half up, in 0..255. */
  lemma CellInRange(frame: Image, width: nat, row: nat, column: nat, c: nat)
    requires Pixels(frame, width) && EightBit(frame) && |frame| >= ROWS && width >= COLUMNS
    requires row < ROWS && column < COLUMNS && c < CHANNELS
    ensures 0 <= Cell(frame, width, row, column, c) <= 255
    ensures var y0, y1 := Cut(|frame|, ROWS, row), Cut(|frame|, ROWS, row + 1);
            var x0, x1 := Cut(width, COLUMNS, column), Cut(width, COLUMNS, column + 1);
            && y0 < y1 <= |frame| && x0 < x1 <= width
            && var m, area := Cell(frame, width, row, column, c), (y1 - y0) * (x1 - x0);
            2 * (m * area) - area <= 2 * BlockSum(frame, width, y0, y1, x0, x1, c) < 2 * (m * area) + area
  {
    CutsAscend(|frame|, ROWS, row);
    CutsAscend(width, COLUMNS, column);
    var y0, y1 := Cut(|frame|, ROWS, row), Cut(|frame|, ROWS, row + 1);
    var x0, x1 := Cut(width, COLUMNS, column), Cut(width, COLUMNS, column + 1);
    MulStrict(y1 - y0, 0, x1 - x0);
    BlockSumBounds(frame, width, y0, y1, x0, x1, c);
    NearestInteger(BlockSum(frame, width, y0, y1, x0, x1, c), (y1 - y0) * (x1 - x0), 255);
  }
}
