/** Reading logical samples out of padded row buffers.

    A plane of `rows` rows and `cols` bytes per row is stored with a stride
    (`linesize`): row `y` starts at offset `y * stride`, and the bytes of a
    row past its logical width are padding. `print_pixel_values` of
    pixel_rgb.c reads packed RGB24 (three bytes per pixel) this way, and
    `print_yuv_values` of pixel_yuv.c reads the three planes of planar
    YUV 4:2:0, whose chroma planes have half the luma width and height,
    rounded down (SubWidthC = SubHeightC = 2, Table 6-1 in section 6.2 of
    ITU-T H.264). */
module Sampling {
  import opened Media

  /** Offset of byte `x` of row `y`. */
  function Offset(stride: int, y: int, x: int): int { y * stride + x }

  /** Exactly the buffers whose every read offset is in bounds: rows after
      the first need a non-negative stride, and the last row must end
      inside the buffer (see PlaneFitsExact). */
  predicate PlaneFits(size: int, cols: nat, rows: nat, stride: int)
  {
    cols == 0 || rows == 0 || ((rows == 1 || 0 <= stride) && Offset(stride, rows - 1, cols) <= size)
  }

  lemma {:induction false} MulMonotone(a: int, b: int, c: int)
    requires 0 <= a <= b && 0 <= c
    ensures a * c <= b * c
  {
    assert b * c - a * c == (b - a) * c;
  }

  /** The only multiple of `c` strictly between `-c` and `c` is 0. */
  lemma {:induction false} SmallMultiple(d: int, c: int)
    requires c > 0 && -c < d * c < c
    ensures d == 0
  {
    if d > 0 {
      MulMonotone(1, d, c);
      assert false;
    } else if d < 0 {
      MulMonotone(1, -d, c);
      assert false;
    }
  }

  lemma {:induction false} PlaneReadInBounds(size: int, cols: nat, rows: nat, stride: int, y: int, x: int)
    requires PlaneFits(size, cols, rows, stride)
    requires 0 <= y < rows && 0 <= x < cols
    ensures 0 <= Offset(stride, y, x) < size
  {
    if rows > 1 {
      MulMonotone(y, rows - 1, stride);
      assert 0 <= y * stride;
    }
  }

  /** The fit condition is both sufficient and necessary for every read
      offset to be in bounds. */
  lemma {:induction false} PlaneFitsExact(size: int, cols: nat, rows: nat, stride: int)
    ensures PlaneFits(size, cols, rows, stride) <==>
            forall y, x :: 0 <= y < rows && 0 <= x < cols ==> 0 <= Offset(stride, y, x) < size
  {
    if PlaneFits(size, cols, rows, stride) {
      forall y, x | 0 <= y < rows && 0 <= x < cols
        ensures 0 <= Offset(stride, y, x) < size
      {
        PlaneReadInBounds(size, cols, rows, stride, y, x);
      }
    } else {
      assert cols > 0 && rows > 0;
      if rows > 1 && stride < 0 {
        assert Offset(stride, 1, 0) < 0;
      } else {
        assert Offset(stride, rows - 1, cols - 1) >= size;
      }
    }
  }

  /** The byte read at row `y`, column `x`. */
  function Sample(buf: seq<byte>, cols: nat, rows: nat, stride: int, y: int, x: int): byte
    requires PlaneFits(|buf|, cols, rows, stride)
    requires 0 <= y < rows && 0 <= x < cols
  {
    PlaneReadInBounds(|buf|, cols, rows, stride, y, x);
    buf[Offset(stride, y, x)]
  }

  /** The rows of logical bytes of a plane, row-major. */
  function PlaneRows(buf: seq<byte>, cols: nat, rows: nat, stride: int): seq<seq<byte>>
    requires PlaneFits(|buf|, cols, rows, stride)
  {
    seq(rows, y requires 0 <= y < rows =>
      seq(cols, x requires 0 <= x < cols => Sample(buf, cols, rows, stride, y, x)))
  }

  /** The same logical content laid out without padding (stride `cols`). */
  function Pack(buf: seq<byte>, cols: nat, rows: nat, stride: int): (tight: seq<byte>)
    requires PlaneFits(|buf|, cols, rows, stride)
    ensures |tight| == rows * cols
  {
    seq(rows * cols, k requires 0 <= k < rows * cols =>
      PackIndex(cols, rows, k);
      Sample(buf, cols, rows, stride, k / cols, k % cols))
  }

  lemma {:induction false} PackIndex(cols: nat, rows: nat, k: int)
    requires 0 <= k < rows * cols
    ensures cols > 0 && 0 <= k / cols < rows && 0 <= k % cols < cols
  {
    if k / cols >= rows {
      MulMonotone(rows, k / cols, cols);
    }
  }

  lemma {:induction false} DivModOfOffset(cols: nat, y: nat, x: nat)
    requires x < cols
    ensures (y * cols + x) / cols == y && (y * cols + x) % cols == x
  {
    var k := y * cols + x;
    var q, r := k / cols, k % cols;
    assert (q - y) * cols == x - r;
    SmallMultiple(q - y, cols);
  }

  lemma {:induction false} PackAt(buf: seq<byte>, cols: nat, rows: nat, stride: int, y: nat, x: nat)
    requires PlaneFits(|buf|, cols, rows, stride)
    requires y < rows && x < cols
    ensures 0 <= Offset(cols, y, x) < rows * cols
    ensures Pack(buf, cols, rows, stride)[Offset(cols, y, x)] == Sample(buf, cols, rows, stride, y, x)
  {
    MulMonotone(y + 1, rows, cols);
    assert (y + 1) * cols == y * cols + cols;
    DivModOfOffset(cols, y, x);
  }

  lemma {:induction false} PackFits(buf: seq<byte>, cols: nat, rows: nat, stride: int)
    requires PlaneFits(|buf|, cols, rows, stride)
    ensures PlaneFits(|Pack(buf, cols, rows, stride)|, cols, rows, cols)
  {
    assert (rows - 1) * cols + cols == rows * cols;
  }

  /** Stride independence: a padded plane reads exactly like the tightly
      packed plane with the same logical content. */
  lemma {:induction false} PlaneStrideIndependent(buf: seq<byte>, cols: nat, rows: nat, stride: int)
    requires PlaneFits(|buf|, cols, rows, stride)
    ensures PlaneFits(|Pack(buf, cols, rows, stride)|, cols, rows, cols)
    ensures PlaneRows(buf, cols, rows, stride) == PlaneRows(Pack(buf, cols, rows, stride), cols, rows, cols)
  {
    PackFits(buf, cols, rows, stride);
    var tight := Pack(buf, cols, rows, stride);
    var a, b := PlaneRows(buf, cols, rows, stride), PlaneRows(tight, cols, rows, cols);
    forall y | 0 <= y < rows
      ensures a[y] == b[y]
    {
      forall x | 0 <= x < cols
        ensures a[y][x] == b[y][x]
      {
        PackAt(buf, cols, rows, stride, y, x);
      }
    }
  }

  /** Padding is never read: overwriting a byte that is not a logical byte
      of any row leaves the output unchanged. */
  lemma {:induction false} PlanePaddingNeverRead(buf: seq<byte>, cols: nat, rows: nat, stride: int, o: int, v: byte)
    requires PlaneFits(|buf|, cols, rows, stride)
    requires 0 <= o < |buf|
    requires forall y, x :: 0 <= y < rows && 0 <= x < cols ==> Offset(stride, y, x) != o
    ensures PlaneRows(buf[o := v], cols, rows, stride) == PlaneRows(buf, cols, rows, stride)
  {
    var a, b := PlaneRows(buf[o := v], cols, rows, stride), PlaneRows(buf, cols, rows, stride);
    forall y | 0 <= y < rows
      ensures a[y] == b[y]
    {
      forall x | 0 <= x < cols
        ensures a[y][x] == b[y][x]
      {
        assert Offset(stride, y, x) != o;
        SampleUnchanged(buf, o, v, cols, rows, stride, y, x);
      }
    }
  }

  lemma {:induction false} SampleUnchanged(buf: seq<byte>, o: int, v: byte, cols: nat, rows: nat, stride: int, y: int, x: int)
    requires PlaneFits(|buf|, cols, rows, stride)
    requires 0 <= o < |buf| && 0 <= y < rows && 0 <= x < cols && Offset(stride, y, x) != o
    ensures Sample(buf[o := v], cols, rows, stride, y, x) == Sample(buf, cols, rows, stride, y, x)
  {
  }

  /** A stride of at least the row width and a buffer that ends past the
      last row's logical bytes keep every read in bounds. */
  lemma {:induction false} PlaneConventionalLayoutFits(size: int, cols: nat, rows: nat, stride: int)
    requires cols <= stride && rows > 0 && (rows - 1) * stride + cols <= size
    ensures forall y, x :: 0 <= y < rows && 0 <= x < cols ==> 0 <= Offset(stride, y, x) < size
  {
    assert PlaneFits(size, cols, rows, stride);
    PlaneFitsExact(size, cols, rows, stride);
  }

  /** The padding bytes of a row, offsets `cols .. stride` from its start,
      are never read. */
  lemma {:induction false} PlanePaddingBytesNeverRead(buf: seq<byte>, cols: nat, rows: nat, stride: int, y0: nat, p: nat, v: byte)
    requires PlaneFits(|buf|, cols, rows, stride)
    requires y0 < rows && cols <= p < stride && 0 <= Offset(stride, y0, p) < |buf|
    ensures PlaneRows(buf[Offset(stride, y0, p) := v], cols, rows, stride) == PlaneRows(buf, cols, rows, stride)
  {
    var o := Offset(stride, y0, p);
    forall y, x | 0 <= y < rows && 0 <= x < cols
      ensures Offset(stride, y, x) != o
    {
      LogicalNotPadding(stride, cols, y, x, y0, p);
    }
    PlanePaddingNeverRead(buf, cols, rows, stride, o, v);
  }

  // ---------------------------------------------------------------------
  // Packed RGB24 (pixel_rgb.c)

  datatype Rgb = Rgb(r: byte, g: byte, b: byte)

  /** The bytes `print_pixel_values(data, width, height, linesize)` reads
      form a plane of `3 * width` bytes per row. */
  predicate RgbFits(size: int, width: int, height: int, linesize: int)
  {
    PlaneFits(size, 3 * Max0(width), Max0(height), linesize)
  }

  /** The triple printed for pixel `x` of row `y`. */
  function RgbAt(data: seq<byte>, width: nat, height: nat, linesize: int, y: int, x: int): Rgb
    requires PlaneFits(|data|, 3 * width, height, linesize)
    requires 0 <= y < height && 0 <= x < width
  {
    Rgb(Sample(data, 3 * width, height, linesize, y, 3 * x),
        Sample(data, 3 * width, height, linesize, y, 3 * x + 1),
        Sample(data, 3 * width, height, linesize, y, 3 * x + 2))
  }

  function RgbRows(data: seq<byte>, width: nat, height: nat, linesize: int): seq<seq<Rgb>>
    requires PlaneFits(|data|, 3 * width, height, linesize)
  {
    seq(height, y requires 0 <= y < height =>
      seq(width, x requires 0 <= x < width => RgbAt(data, width, height, linesize, y, x)))
  }

  /** Nested loops of `print_pixel_values`: for each row `y < height`, `x`
      steps through `0, 3, ..., 3 * (width - 1)` and the triple at
      `y * linesize + x`, `+ 1`, `+ 2` is printed. */
  method PrintPixelValues(data: seq<byte>, width: int, height: int, linesize: int)
    returns (rows: seq<seq<Rgb>>)
    requires RgbFits(|data|, width, height, linesize)
    ensures rows == RgbRows(data, Max0(width), Max0(height), linesize)
  {
    ghost var w, h := Max0(width), Max0(height);
    ghost var all := RgbRows(data, w, h, linesize);
    rows := [];
    var y := 0;
    while y < height
      invariant 0 <= y <= h
      invariant rows == all[..y]
    {
      var row := [];
      var x := 0;
      while x < width * 3
        invariant 0 <= |row| <= w && x == 3 * |row|
        invariant row == all[y][..|row|]
      {
        PlaneReadInBounds(|data|, 3 * w, h, linesize, y, x);
        PlaneReadInBounds(|data|, 3 * w, h, linesize, y, x + 2);
        var r := data[Offset(linesize, y, x)];
        var g := data[Offset(linesize, y, x + 1)];
        var b := data[Offset(linesize, y, x + 2)];
        assert Rgb(r, g, b) == all[y][|row|];
        row := row + [Rgb(r, g, b)];
        x := x + 3;
      }
      assert row == all[y];
      rows := rows + [row];
      y := y + 1;
    }
    assert rows == all;
  }

  /** Shape and content of the RGB printout: `height` rows of `width`
      triples, triple `k` of row `y` read from offsets `y * linesize + 3k`,
      `+ 1` and `+ 2`, all in bounds. */
  lemma {:induction false} RgbRowsAt(data: seq<byte>, width: nat, height: nat, linesize: int)
    requires PlaneFits(|data|, 3 * width, height, linesize)
    ensures |RgbRows(data, width, height, linesize)| == height
    ensures forall y, k :: 0 <= y < height && 0 <= k < width ==>
              0 <= Offset(linesize, y, 3 * k) && Offset(linesize, y, 3 * k + 2) < |data| &&
              |RgbRows(data, width, height, linesize)[y]| == width &&
              RgbRows(data, width, height, linesize)[y][k] ==
                Rgb(data[Offset(linesize, y, 3 * k)],
                    data[Offset(linesize, y, 3 * k + 1)],
                    data[Offset(linesize, y, 3 * k + 2)])
  {
    forall y, k | 0 <= y < height && 0 <= k < width
      ensures 0 <= Offset(linesize, y, 3 * k) && Offset(linesize, y, 3 * k + 2) < |data|
    {
      PlaneReadInBounds(|data|, 3 * width, height, linesize, y, 3 * k);
      PlaneReadInBounds(|data|, 3 * width, height, linesize, y, 3 * k + 2);
    }
  }

  /** The same for one pixel. */
  lemma {:induction false} RgbPixelAt(data: seq<byte>, width: nat, height: nat, linesize: int, y: int, k: int)
    requires PlaneFits(|data|, 3 * width, height, linesize)
    requires 0 <= y < height && 0 <= k < width
    ensures 0 <= Offset(linesize, y, 3 * k) && Offset(linesize, y, 3 * k + 2) < |data|
    ensures |RgbRows(data, width, height, linesize)[y]| == width
    ensures RgbRows(data, width, height, linesize)[y][k] ==
              Rgb(data[Offset(linesize, y, 3 * k)],
                  data[Offset(linesize, y, 3 * k + 1)],
                  data[Offset(linesize, y, 3 * k + 2)])
  {
    PlaneReadInBounds(|data|, 3 * width, height, linesize, y, 3 * k);
    PlaneReadInBounds(|data|, 3 * width, height, linesize, y, 3 * k + 2);
  }

  /** Stride independence for RGB24: the output equals the output for the
      tightly packed copy, whose linesize is `3 * width`. */
  lemma {:induction false} RgbStrideIndependent(data: seq<byte>, width: nat, height: nat, linesize: int)
    requires PlaneFits(|data|, 3 * width, height, linesize)
    ensures PlaneFits(|Pack(data, 3 * width, height, linesize)|, 3 * width, height, 3 * width)
    ensures RgbRows(data, width, height, linesize) ==
            RgbRows(Pack(data, 3 * width, height, linesize), width, height, 3 * width)
  {
    var cols := 3 * width;
    PackFits(data, cols, height, linesize);
    var tight := Pack(data, cols, height, linesize);
    var a, b := RgbRows(data, width, height, linesize), RgbRows(tight, width, height, cols);
    forall y | 0 <= y < height
      ensures a[y] == b[y]
    {
      forall x | 0 <= x < width
        ensures a[y][x] == b[y][x]
      {
        PackAt(data, cols, height, linesize, y, 3 * x);
        PackAt(data, cols, height, linesize, y, 3 * x + 1);
        PackAt(data, cols, height, linesize, y, 3 * x + 2);
      }
    }
  }

  /** A logical byte of one row never shares its offset with a padding
      byte of any row when the linesize is at least the row width. */
  lemma {:induction false} LogicalNotPadding(linesize: int, rowBytes: nat, y: nat, x: nat, y0: nat, p: nat)
    requires rowBytes <= linesize && x < rowBytes <= p < linesize
    ensures Offset(linesize, y, x) != Offset(linesize, y0, p)
  {
    if y < y0 {
      MulMonotone(y + 1, y0, linesize);
      assert (y + 1) * linesize == y * linesize + linesize;
    } else if y > y0 {
      MulMonotone(y0 + 1, y, linesize);
      assert (y0 + 1) * linesize == y0 * linesize + linesize;
    }
  }

  /** The padding bytes of a row, offsets `3 * width .. linesize` from its
      start, are never read. */
  lemma {:induction false} RgbPaddingNeverRead(data: seq<byte>, width: nat, height: nat, linesize: int, y0: nat, p: nat, v: byte)
    requires PlaneFits(|data|, 3 * width, height, linesize)
    requires 3 * width <= linesize && y0 < height && 3 * width <= p < linesize
    requires 0 <= Offset(linesize, y0, p) < |data|
    ensures RgbRows(data[Offset(linesize, y0, p) := v], width, height, linesize) == RgbRows(data, width, height, linesize)
  {
    var o := Offset(linesize, y0, p);
    var a, b := RgbRows(data[o := v], width, height, linesize), RgbRows(data, width, height, linesize);
    forall y | 0 <= y < height
      ensures a[y] == b[y]
    {
      forall x | 0 <= x < width
        ensures a[y][x] == b[y][x]
      {
        LogicalNotPadding(linesize, 3 * width, y, 3 * x, y0, p);
        LogicalNotPadding(linesize, 3 * width, y, 3 * x + 1, y0, p);
        LogicalNotPadding(linesize, 3 * width, y, 3 * x + 2, y0, p);
        RgbAtUnchanged(data, o, v, width, height, linesize, y, x);
      }
    }
  }

  lemma {:induction false} RgbAtUnchanged(data: seq<byte>, o: int, v: byte, width: nat, height: nat, linesize: int, y: int, x: int)
    requires PlaneFits(|data|, 3 * width, height, linesize)
    requires 0 <= o < |data| && 0 <= y < height && 0 <= x < width
    requires Offset(linesize, y, 3 * x) != o && Offset(linesize, y, 3 * x + 1) != o && Offset(linesize, y, 3 * x + 2) != o
    ensures RgbAt(data[o := v], width, height, linesize, y, x) == RgbAt(data, width, height, linesize, y, x)
  {
  }

  /** The condition stated for the source's buffers (a linesize of at least
      the row width, and a buffer that ends past the last row's pixels)
      implies that every read is in bounds. */
  lemma {:induction false} RgbConventionalLayoutFits(size: int, width: nat, height: nat, linesize: int)
    requires 3 * width <= linesize && height > 0 && (height - 1) * linesize + 3 * width <= size
    ensures RgbFits(size, width, height, linesize)
  {
  }

  // ---------------------------------------------------------------------
  // Planar YUV 4:2:0 (pixel_yuv.c)

  /** `width / 2` and `height / 2` as C evaluates them on `int`: truncation toward zero. */
  function Half(n: int): (h: int)
    ensures n >= 0 ==> 0 <= 2 * h <= n < 2 * h + 2
    ensures n < 0 ==> h <= 0 && n <= 2 * h < n + 2
  {
    if n >= 0 then n / 2 else -((-n) / 2)
  }

  /** The three planes of a decoded frame (`frame->data[0..2]`) with their
      linesizes (`frame->linesize[0..2]`). */
  datatype YuvFrame = YuvFrame(y: seq<byte>, u: seq<byte>, v: seq<byte>,
                               yStride: int, uStride: int, vStride: int)

  predicate YuvFits(f: YuvFrame, width: int, height: int)
  {
    && PlaneFits(|f.y|, Max0(width), Max0(height), f.yStride)
    && PlaneFits(|f.u|, Max0(Half(width)), Max0(Half(height)), f.uStride)
    && PlaneFits(|f.v|, Max0(Half(width)), Max0(Half(height)), f.vStride)
  }

  /** All luma rows, then all U rows, then all V rows. */
  function YuvRows(f: YuvFrame, width: int, height: int): seq<seq<byte>>
    requires YuvFits(f, width, height)
  {
    PlaneRows(f.y, Max0(width), Max0(height), f.yStride)
    + PlaneRows(f.u, Max0(Half(width)), Max0(Half(height)), f.uStride)
    + PlaneRows(f.v, Max0(Half(width)), Max0(Half(height)), f.vStride)
  }

  /** One loop pair of `print_yuv_values`: rows `y < rows`, bytes
      `x < cols`, each read at `y * stride + x`. */
  method SamplePlane(buf: seq<byte>, cols: int, rows: int, stride: int) returns (out: seq<seq<byte>>)
    requires PlaneFits(|buf|, Max0(cols), Max0(rows), stride)
    ensures out == PlaneRows(buf, Max0(cols), Max0(rows), stride)
  {
    ghost var c, r := Max0(cols), Max0(rows);
    ghost var all := PlaneRows(buf, c, r, stride);
    out := [];
    var y := 0;
    while y < rows
      invariant 0 <= y <= r
      invariant out == all[..y]
    {
      var row := [];
      var x := 0;
      while x < cols
        invariant 0 <= x <= c && x == |row|
        invariant row == all[y][..x]
      {
        PlaneReadInBounds(|buf|, c, r, stride, y, x);
        row := row + [buf[Offset(stride, y, x)]];
        x := x + 1;
      }
      assert row == all[y];
      out := out + [row];
      y := y + 1;
    }
    assert out == all;
  }

  /** `print_yuv_values(frame, width, height)`: the luma plane at full size,
      then U and V at `width / 2` by `height / 2`, each with its own linesize. */
  method PrintYuvValues(f: YuvFrame, width: int, height: int) returns (rows: seq<seq<byte>>)
    requires YuvFits(f, width, height)
    ensures rows == YuvRows(f, width, height)
  {
    var yRows := SamplePlane(f.y, width, height, f.yStride);
    var uRows := SamplePlane(f.u, Half(width), Half(height), f.uStride);
    var vRows := SamplePlane(f.v, Half(width), Half(height), f.vStride);
    rows := yRows + uRows + vRows;
  }

  lemma {:induction false} PlaneRowsAt(buf: seq<byte>, cols: nat, rows: nat, stride: int)
    requires PlaneFits(|buf|, cols, rows, stride)
    ensures |PlaneRows(buf, cols, rows, stride)| == rows
    ensures forall y, x :: 0 <= y < rows && 0 <= x < cols ==>
              0 <= Offset(stride, y, x) < |buf| &&
              |PlaneRows(buf, cols, rows, stride)[y]| == cols &&
              PlaneRows(buf, cols, rows, stride)[y][x] == buf[Offset(stride, y, x)]
  {
    PlaneFitsExact(|buf|, cols, rows, stride);
  }

  /** Shape and content of the YUV printout: `height` luma rows of `width`
      values read at `y * linesize[0] + x`, then `height / 2` rows of
      `width / 2` values from U and the same from V, each read with that
      plane's own linesize. */
  lemma {:induction false} YuvRowsLayout(f: YuvFrame, width: nat, height: nat)
    requires YuvFits(f, width, height)
    ensures var rows, cw, ch := YuvRows(f, width, height), width / 2, height / 2;
      && |rows| == height + 2 * ch
      && (forall y, x :: 0 <= y < height && 0 <= x < width ==>
            0 <= Offset(f.yStride, y, x) < |f.y| &&
            |rows[y]| == width && rows[y][x] == f.y[Offset(f.yStride, y, x)])
      && (forall y, x :: 0 <= y < ch && 0 <= x < cw ==>
            0 <= Offset(f.uStride, y, x) < |f.u| &&
            |rows[height + y]| == cw && rows[height + y][x] == f.u[Offset(f.uStride, y, x)])
      && (forall y, x :: 0 <= y < ch && 0 <= x < cw ==>
            0 <= Offset(f.vStride, y, x) < |f.v| &&
            |rows[height + ch + y]| == cw && rows[height + ch + y][x] == f.v[Offset(f.vStride, y, x)])
  {
    var cw, ch := width / 2, height / 2;
    assert Max0(Half(width)) == cw && Max0(Half(height)) == ch;
    var Y := PlaneRows(f.y, width, height, f.yStride);
    var U := PlaneRows(f.u, cw, ch, f.uStride);
    var V := PlaneRows(f.v, cw, ch, f.vStride);
    PlaneRowsAt(f.y, width, height, f.yStride);
    PlaneRowsAt(f.u, cw, ch, f.uStride);
    PlaneRowsAt(f.v, cw, ch, f.vStride);
    var rows := YuvRows(f, width, height);
    assert rows == Y + U + V;
    assert forall y | 0 <= y < height :: rows[y] == Y[y];
    assert forall y | 0 <= y < ch :: rows[height + y] == U[y];
    assert forall y | 0 <= y < ch :: rows[height + ch + y] == V[y];
  }

  /** The padding bytes of each plane (offsets from the plane's logical
      width up to its linesize, in any row) are never read: overwriting one
      leaves the printout unchanged. */
  lemma {:induction false} YuvPaddingNeverRead(f: YuvFrame, width: nat, height: nat, y0: nat, p: nat, v: byte)
    requires YuvFits(f, width, height)
    ensures width <= p < f.yStride && y0 < height && 0 <= Offset(f.yStride, y0, p) < |f.y| ==>
              YuvRows(f.(y := f.y[Offset(f.yStride, y0, p) := v]), width, height) == YuvRows(f, width, height)
    ensures width / 2 <= p < f.uStride && y0 < height / 2 && 0 <= Offset(f.uStride, y0, p) < |f.u| ==>
              YuvRows(f.(u := f.u[Offset(f.uStride, y0, p) := v]), width, height) == YuvRows(f, width, height)
    ensures width / 2 <= p < f.vStride && y0 < height / 2 && 0 <= Offset(f.vStride, y0, p) < |f.v| ==>
              YuvRows(f.(v := f.v[Offset(f.vStride, y0, p) := v]), width, height) == YuvRows(f, width, height)
  {
    var cw, ch := width / 2, height / 2;
    assert Max0(Half(width)) == cw && Max0(Half(height)) == ch;
    if width <= p < f.yStride && y0 < height && 0 <= Offset(f.yStride, y0, p) < |f.y| {
      PlanePaddingBytesNeverRead(f.y, width, height, f.yStride, y0, p, v);
    }
    if cw <= p < f.uStride && y0 < ch && 0 <= Offset(f.uStride, y0, p) < |f.u| {
      PlanePaddingBytesNeverRead(f.u, cw, ch, f.uStride, y0, p, v);
    }
    if cw <= p < f.vStride && y0 < ch && 0 <= Offset(f.vStride, y0, p) < |f.v| {
      PlanePaddingBytesNeverRead(f.v, cw, ch, f.vStride, y0, p, v);
    }
  }

  /** The tightly packed frame with the same logical content. */
  function PackYuv(f: YuvFrame, width: int, height: int): (g: YuvFrame)
    requires YuvFits(f, width, height)
    ensures YuvFits(g, width, height)
  {
    var w, h, cw, ch := Max0(width), Max0(height), Max0(Half(width)), Max0(Half(height));
    PackFits(f.y, w, h, f.yStride);
    PackFits(f.u, cw, ch, f.uStride);
    PackFits(f.v, cw, ch, f.vStride);
    YuvFrame(Pack(f.y, w, h, f.yStride), Pack(f.u, cw, ch, f.uStride), Pack(f.v, cw, ch, f.vStride), w, cw, cw)
  }

  /** Stride independence for YUV 4:2:0: a frame with padded linesizes
      prints exactly like its tightly packed copy. */
  lemma {:induction false} YuvStrideIndependent(f: YuvFrame, width: int, height: int)
    requires YuvFits(f, width, height)
    ensures YuvRows(f, width, height) == YuvRows(PackYuv(f, width, height), width, height)
  {
    var w, h, cw, ch := Max0(width), Max0(height), Max0(Half(width)), Max0(Half(height));
    PlaneStrideIndependent(f.y, w, h, f.yStride);
    PlaneStrideIndependent(f.u, cw, ch, f.uStride);
    PlaneStrideIndependent(f.v, cw, ch, f.vStride);
  }
}
