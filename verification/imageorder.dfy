/** `get_image_order`: the order in which the pixels are handed to the
    kernels. When both sides divide evenly, the image is walked in blocks of
    8 by 4 pixels, block row by block row; otherwise column by column. The
    two names of the source are kept: `width` is the first entry of
    `img_shape` (the image's row count, since `img_shape` is `image_size`
    reversed) and `height` the second, and a pixel `[x, y]` indexes
    `img[x, y]`. */
module ImageOrder {
  const BlockW: nat := 8
  const BlockH: nat := 4

  /** One entry `[x, y]` of the order. */
  datatype Pixel = Pixel(x: nat, y: nat)

  predicate InImage(p: Pixel, width: nat, height: nat) {
    p.x < width && p.y < height
  }

  /** The block walk is used when the image tiles into whole blocks. */
  predicate Blocked(width: nat, height: nat) {
    width % BlockW == 0 && height % BlockH == 0
  }

  /** Where pixel `p` comes in the order. In the block walk it is the
      count of the pixels of earlier blocks (block rows first, then the
      blocks of its own row), then of the earlier rows of its own block,
      then of the earlier pixels of its own row; in the column walk it is
      the count of the earlier columns' pixels plus its row. */
  function PixelIndex(p: Pixel, width: nat, height: nat): nat {
    if Blocked(width, height) then
      ((p.y / BlockH * (width / BlockW) + p.x / BlockW) * BlockH + p.y % BlockH) * BlockW + p.x % BlockW
    else p.x * height + p.y
  }

  /** The pixel at position `i`: the inverse of `PixelIndex`. */
  function PixelAt(i: nat, width: nat, height: nat): Pixel {
    if Blocked(width, height) then
      var xBlocks := width / BlockW;
      var dx := i % BlockW;
      var dy := i / BlockW % BlockH;
      var block := i / BlockW / BlockH;
      if xBlocks == 0 then Pixel(dx, dy)
      else Pixel(block % xBlocks * BlockW + dx, block / xBlocks * BlockH + dy)
    else if height == 0 then Pixel(0, i)
    else Pixel(i / height, i % height)
  }

  /** Division with remainder recovers the quotient and the remainder. */
  lemma DivModOf(q: nat, r: nat, b: nat)
    requires r < b
    ensures (q * b + r) / b == q && (q * b + r) % b == r
  {
    var a := q * b + r;
    var d := a / b - q;
    assert d * b == r - a % b;
    MulBounded(d, b);
  }

  /** A multiple of `b` strictly between `-b` and `b` is zero. */
  lemma MulBounded(d: int, b: nat)
    requires -(b as int) < d * b < b
    ensures d == 0
  {
    if d >= 1 {
      MulMono(1, d, b);
    } else if d <= -1 {
      MulMono(1, -d, b);
    }
  }

  lemma MulMono(a: int, c: int, b: nat)
    requires a <= c
    ensures a * b <= c * b
  {
  }

  /** Reading a pixel's position back gives the pixel. */
  lemma PixelAtIndex(p: Pixel, width: nat, height: nat)
    requires InImage(p, width, height)
    ensures PixelAt(PixelIndex(p, width, height), width, height) == p
  {
    if Blocked(width, height) {
      BlockedAtIndex(p, width, height);
    } else {
      DivModOf(p.x, p.y, height);
    }
  }

  lemma BlockedAtIndex(p: Pixel, width: nat, height: nat)
    requires InImage(p, width, height) && Blocked(width, height)
    ensures PixelAt(PixelIndex(p, width, height), width, height) == p
  {
    var xBlocks := width / BlockW;
    var xb := p.x / BlockW;
    var yb := p.y / BlockH;
    var xm := p.x % BlockW;
    var ym := p.y % BlockH;
    var block := yb * xBlocks + xb;
    var i := PixelIndex(p, width, height);
    assert i == (block * BlockH + ym) * BlockW + xm;
    DivModOf(block * BlockH + ym, xm, BlockW);
    DivModOf(block, ym, BlockH);
    assert xb < xBlocks by {
      assert width == xBlocks * BlockW;
      if xb >= xBlocks {
        MulMono(xBlocks, xb, BlockW);
      }
    }
    DivModOf(yb, xb, xBlocks);
    assert p.x == xb * BlockW + xm && p.y == yb * BlockH + ym;
  }

  /** Every pixel of the image has a position within the order. */
  lemma PixelIndexBound(p: Pixel, width: nat, height: nat)
    requires InImage(p, width, height)
    ensures PixelIndex(p, width, height) < width * height
  {
    if Blocked(width, height) {
      var xBlocks := width / BlockW;
      var yBlocks := height / BlockH;
      var xb := p.x / BlockW;
      var yb := p.y / BlockH;
      var block := yb * xBlocks + xb;
      assert PixelIndex(p, width, height) < (block + 1) * (BlockW * BlockH);
      assert block + 1 <= (yb + 1) * xBlocks by {
        assert (yb + 1) * xBlocks == yb * xBlocks + xBlocks;
      }
      MulMono(yb + 1, yBlocks, xBlocks);
      MulMono(block + 1, yBlocks * xBlocks, BlockW * BlockH);
      BlockArea(width, height);
    } else {
      MulMono(p.x + 1, width, height);
    }
  }

  /** A blocked image holds whole blocks only. */
  lemma BlockArea(width: nat, height: nat)
    requires Blocked(width, height)
    ensures width * height == height / BlockH * (width / BlockW) * (BlockW * BlockH)
  {
    var xBlocks := width / BlockW;
    var yBlocks := height / BlockH;
    assert width == xBlocks * BlockW && height == yBlocks * BlockH;
  }

  /** Positions `0 .. |order|` hold pixels of the image, each at its own
      position. */
  predicate Indexed(order: seq<Pixel>, width: nat, height: nat) {
    forall i :: 0 <= i < |order| ==> InImage(order[i], width, height) && PixelIndex(order[i], width, height) == i
  }

  lemma IndexedAppend(order: seq<Pixel>, p: Pixel, width: nat, height: nat)
    requires Indexed(order, width, height)
    requires InImage(p, width, height) && PixelIndex(p, width, height) == |order|
    ensures Indexed(order + [p], width, height)
  {
  }

  /** The pixel appended in the block walk belongs at the end. */
  lemma BlockStep(width: nat, height: nat, yb: nat, xb: nat, dy: nat, dx: nat)
    requires Blocked(width, height)
    requires yb < height / BlockH && xb < width / BlockW && dy < BlockH && dx < BlockW
    ensures var p := Pixel(dx + xb * BlockW, dy + yb * BlockH);
      && InImage(p, width, height)
      && PixelIndex(p, width, height) == ((yb * (width / BlockW) + xb) * BlockH + dy) * BlockW + dx
  {
  }

  /** The block walk of `get_image_order`. */
  method BlockOrder(width: nat, height: nat) returns (order: seq<Pixel>)
    requires Blocked(width, height)
    ensures |order| == width * height && Indexed(order, width, height)
  {
    order := [];
    var xBlocks := width / BlockW;
    var yBlocks := height / BlockH;
    for yb := 0 to yBlocks
      invariant |order| == yb * xBlocks * (BlockW * BlockH)
      invariant Indexed(order, width, height)
    {
      for xb := 0 to xBlocks
        invariant |order| == (yb * xBlocks + xb) * (BlockW * BlockH)
        invariant Indexed(order, width, height)
      {
        for dy := 0 to BlockH
          invariant |order| == ((yb * xBlocks + xb) * BlockH + dy) * BlockW
          invariant Indexed(order, width, height)
        {
          for dx := 0 to BlockW
            invariant |order| == ((yb * xBlocks + xb) * BlockH + dy) * BlockW + dx
            invariant Indexed(order, width, height)
          {
            var p := Pixel(dx + xb * BlockW, dy + yb * BlockH);
            BlockStep(width, height, yb, xb, dy, dx);
            IndexedAppend(order, p, width, height);
            order := order + [p];
          }
        }
      }
      assert (yb + 1) * xBlocks == yb * xBlocks + xBlocks;
    }
    BlockArea(width, height);
  }

  /** The column walk of `get_image_order`. */
  method ColumnOrder(width: nat, height: nat) returns (order: seq<Pixel>)
    requires !Blocked(width, height)
    ensures |order| == width * height && Indexed(order, width, height)
  {
    order := [];
    for x := 0 to width
      invariant |order| == x * height
      invariant Indexed(order, width, height)
    {
      for y := 0 to height
        invariant |order| == x * height + y
        invariant Indexed(order, width, height)
      {
        IndexedAppend(order, Pixel(x, y), width, height);
        order := order + [Pixel(x, y)];
      }
      assert (x + 1) * height == x * height + height;
    }
  }

  /** `get_image_order`: the result lists every pixel of the image exactly
      once, pixel `p` at position `PixelIndex(p)`. */
  method GetImageOrder(width: nat, height: nat) returns (order: seq<Pixel>)
    ensures |order| == width * height
    ensures forall i :: 0 <= i < |order| ==>
      InImage(order[i], width, height) && PixelIndex(order[i], width, height) == i
    ensures forall i, j :: 0 <= i < j < |order| ==> order[i] != order[j]
    ensures forall p :: InImage(p, width, height) ==>
      PixelIndex(p, width, height) < |order| && order[PixelIndex(p, width, height)] == p
  {
    if Blocked(width, height) {
      order := BlockOrder(width, height);
    } else {
      order := ColumnOrder(width, height);
    }
    forall p | InImage(p, width, height)
      ensures PixelIndex(p, width, height) < |order| && order[PixelIndex(p, width, height)] == p
    {
      var i := PixelIndex(p, width, height);
      PixelIndexBound(p, width, height);
      PixelAtIndex(p, width, height);
      PixelAtIndex(order[i], width, height);
    }
  }
}
