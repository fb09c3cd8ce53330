/** The compression of one image as a function: the 8-bit RGB input is
    widened to floating point, cropped to whole blocks, block-quantised and
    cast back to 8 bits. */
module Pipeline {
  import opened Arithmetic
  import opened Grids
  import opened Statistics
  import opened Quantizer
  import opened BlockScan

  /** An RGB image with 8-bit samples, as the image library hands it over. */
  type Raster = seq<seq<seq<int>>>

  predicate IsRaster(img: Raster)
  {
    IsGrid(img) &&
    forall r, c, k :: 0 <= r < |img| && 0 <= c < |img[r]| && 0 <= k < Channels ==>
      0 <= img[r][c][k] <= 255
  }

  /** The conversion to a float32 array: 8-bit values convert exactly. */
  function Widen(img: Raster): (g: Grid)
    requires IsGrid(img)
    ensures |g| == |img| && Width(g) == Width(img) && IsGrid(g)
    ensures forall r, c, k :: 0 <= r < |g| && 0 <= c < |g[r]| && 0 <= k < Channels ==>
              g[r][c][k] == img[r][c][k] as real
  {
    seq(|img|, r requires 0 <= r < |img| =>
      seq(|img[r]|, c requires 0 <= c < |img[r]| =>
        seq(Channels, k requires 0 <= k < Channels => img[r][c][k] as real)))
  }

  /** The cast of one sample to uint8. The samples reaching it lie in
      [0, 255], where the cast truncates toward zero and cannot wrap around. */
  function ToUint8(x: real): (b: int)
    requires 0.0 <= x < 256.0
    ensures 0 <= b <= 255 && b as real <= x < b as real + 1.0
  {
    x.Floor
  }

  /** The cast of the whole buffer to uint8. */
  function Narrow(g: Grid): (img: Raster)
    requires IsGrid(g) && SamplesWithin(g, 0.0, 255.0)
    ensures IsRaster(img) && |img| == |g| && Width(img) == Width(g)
    ensures forall r, c, k :: 0 <= r < |img| && 0 <= c < |img[r]| && 0 <= k < Channels ==>
              img[r][c][k] == ToUint8(g[r][c][k])
  {
    seq(|g|, r requires 0 <= r < |g| =>
      seq(|g[r]|, c requires 0 <= c < |g[r]| =>
        seq(Channels, k requires 0 <= k < Channels => ToUint8(g[r][c][k]))))
  }

  /** Casting a widened image back gives the image itself. */
  lemma NarrowWiden(img: Raster)
    requires IsRaster(img)
    ensures SamplesWithin(Widen(img), 0.0, 255.0) && Narrow(Widen(img)) == img
  {
    var back := Narrow(Widen(img));
    forall r | 0 <= r < |img| ensures back[r] == img[r] {
      forall c | 0 <= c < |img[r]| ensures back[r][c] == img[r][c] {
      }
    }
  }

  /** The cropped float buffer the filter works on. */
  function Cropped(img: Raster, bs: nat): (g: Grid)
    requires IsRaster(img) && bs > 0
    ensures Divisible(g, bs) && SamplesWithin(g, 0.0, 255.0)
    ensures |g| == AlignDown(|img|, bs) && (|g| > 0 ==> Width(g) == AlignDown(Width(img), bs))
    ensures forall r, c :: 0 <= r < |g| && 0 <= c < Width(g) ==> g[r][c] == Widen(img)[r][c]
  {
    Crop(Widen(img), bs)
  }

  /** The 8-bit image the compressor hands to the encoder. Its shape is
      (H - H % bs, W - W % bs, 3), the top-left part of the input. */
  function Compress(img: Raster, bs: nat, threshold: int): (out: Raster)
    requires IsRaster(img) && bs > 0
    ensures IsRaster(out)
    ensures |out| == AlignDown(|img|, bs)
    ensures |out| > 0 ==> Width(out) == AlignDown(Width(img), bs)
  {
    var g := Cropped(img, bs);
    QuantizeWithin(g, bs, threshold, 0.0, 255.0);
    Narrow(Quantize(g, bs, threshold))
  }

  /** In the 8-bit result, a block below the threshold holds the truncated
      mean colour of the input block at every pixel. */
  lemma CompressCollapsed(img: Raster, bs: nat, threshold: int, i: nat, j: nat)
    requires IsRaster(img) && bs > 0
    requires IsOrigin(Cropped(img, bs), bs, i, j)
    requires Collapses(BlockAt(Cropped(img, bs), bs, i, j), threshold)
    ensures forall r, c, k :: i <= r < i + bs && j <= c < j + bs && 0 <= k < Channels ==>
              0.0 <= MeanColour(BlockAt(Cropped(img, bs), bs, i, j))[k] < 256.0 &&
              Compress(img, bs, threshold)[r][c][k] ==
                ToUint8(MeanColour(BlockAt(Cropped(img, bs), bs, i, j))[k])
  {
    var g := Cropped(img, bs);
    var b := BlockAt(g, bs, i, j);
    CollapsedBlock(g, bs, threshold, i, j);
    assert SamplesWithin(b, 0.0, 255.0) by {
      forall t, u, k | 0 <= t < |b| && 0 <= u < |b[t]| && 0 <= k < Channels
        ensures 0.0 <= b[t][u][k] <= 255.0
      {
        assert b[t][u] == g[i + t][j + u];
      }
    }
    MeanColourWithin(b, 0.0, 255.0);
  }

  /** In the 8-bit result, a block at or above the threshold is identical to
      the input block. */
  lemma CompressPassed(img: Raster, bs: nat, threshold: int, i: nat, j: nat)
    requires IsRaster(img) && bs > 0
    requires IsOrigin(Cropped(img, bs), bs, i, j)
    requires !Collapses(BlockAt(Cropped(img, bs), bs, i, j), threshold)
    ensures forall r, c :: i <= r < i + bs && j <= c < j + bs ==>
              Compress(img, bs, threshold)[r][c] == img[r][c]
  {
    var g := Cropped(img, bs);
    var out := Compress(img, bs, threshold);
    PassedBlock(g, bs, threshold, i, j);
    forall r, c | i <= r < i + bs && j <= c < j + bs ensures out[r][c] == img[r][c] {
      assert forall k :: 0 <= k < Channels ==> out[r][c][k] == img[r][c][k];
    }
  }

  /** A crop to the size a buffer already has changes nothing. */
  lemma CropWhole<T>(g: seq<seq<seq<T>>>, bs: nat)
    requires bs > 0 && IsGrid(g) && |g| % bs == 0 && Width(g) % bs == 0
    ensures Crop(g, bs) == g
  {
    DivMod(|g|, bs, |g| / bs, 0);
    DivMod(Width(g), bs, Width(g) / bs, 0);
    var cropped := Crop(g, bs);
    forall r | 0 <= r < |g| ensures cropped[r] == g[r] {
      assert forall c :: 0 <= c < Width(g) ==> cropped[r][c] == g[r][c];
    }
  }

  /** A block of an 8-bit image whose pixels all equal its top-left pixel is
      one colour once widened. */
  lemma WidenedUniform(x: Raster, bs: nat, i: nat, j: nat)
    requires IsRaster(x) && bs > 0 && i + bs <= |x| && j + bs <= Width(x)
    requires forall r, c :: i <= r < i + bs && j <= c < j + bs ==> x[r][c] == x[i][j]
    ensures Uniform(BlockAt(Widen(x), bs, i, j))
  {
    var w := Widen(x);
    var bw := BlockAt(w, bs, i, j);
    forall t, u | 0 <= t < bs && 0 <= u < bs ensures bw[t][u] == bw[0][0] {
      var r, c := i + t, j + u;
      assert x[r][c] == x[i][j];
      assert forall k :: 0 <= k < Channels ==> w[r][c][k] == x[r][c][k] as real;
      assert forall k :: 0 <= k < Channels ==> w[i][j][k] == x[i][j][k] as real;
      assert w[r][c] == w[i][j];
    }
  }

  /** Two 8-bit images that agree on a block have the same widened block. */
  lemma WidenedAgree(x: Raster, y: Raster, bs: nat, i: nat, j: nat)
    requires IsRaster(x) && IsRaster(y)
    requires i + bs <= |x| && j + bs <= Width(x) && i + bs <= |y| && j + bs <= Width(y)
    requires forall r, c :: i <= r < i + bs && j <= c < j + bs ==> x[r][c] == y[r][c]
    ensures BlockAt(Widen(x), bs, i, j) == BlockAt(Widen(y), bs, i, j)
  {
    var wx, wy := Widen(x), Widen(y);
    var blockX, blockY := BlockAt(wx, bs, i, j), BlockAt(wy, bs, i, j);
    forall t | 0 <= t < bs ensures blockX[t] == blockY[t] {
      forall u | 0 <= u < bs ensures blockX[t][u] == blockY[t][u] {
        var r, c := i + t, j + u;
        assert forall k :: 0 <= k < Channels ==> wx[r][c][k] == x[r][c][k] as real;
        assert forall k :: 0 <= k < Channels ==> wy[r][c][k] == y[r][c][k] as real;
      }
    }
  }

  /** The block of the cropped buffer is the block of the widened input. */
  lemma CroppedBlock(img: Raster, bs: nat, i: nat, j: nat)
    requires IsRaster(img) && bs > 0 && IsOrigin(Cropped(img, bs), bs, i, j)
    ensures BlockAt(Cropped(img, bs), bs, i, j) == BlockAt(Widen(img), bs, i, j)
  {
    var bc, bw := BlockAt(Cropped(img, bs), bs, i, j), BlockAt(Widen(img), bs, i, j);
    forall t | 0 <= t < bs ensures bc[t] == bw[t] {
    }
  }

  /** In the 8-bit result, every pixel of a collapsed block has the colour
      of its top-left pixel. */
  lemma CompressCollapsedUniform(img: Raster, bs: nat, threshold: int, i: nat, j: nat)
    requires IsRaster(img) && bs > 0
    requires IsOrigin(Cropped(img, bs), bs, i, j)
    requires Collapses(BlockAt(Cropped(img, bs), bs, i, j), threshold)
    ensures forall r, c :: i <= r < i + bs && j <= c < j + bs ==>
              Compress(img, bs, threshold)[r][c] == Compress(img, bs, threshold)[i][j]
  {
    var out := Compress(img, bs, threshold);
    var m := MeanColour(BlockAt(Cropped(img, bs), bs, i, j));
    CompressCollapsed(img, bs, threshold, i, j);
    forall r, c | i <= r < i + bs && j <= c < j + bs ensures out[r][c] == out[i][j] {
      assert |out[r][c]| == Channels && |out[i][j]| == Channels;
      forall k | 0 <= k < Channels ensures out[r][c][k] == out[i][j][k] {
        assert out[r][c][k] == ToUint8(m[k]) == out[i][j][k];
      }
    }
  }

  /** Each block of the widened result is a fixed point of the filter: a
      collapsed block has one colour, and a block left as it was is the
      input block, which keeps the variance that kept it. */
  lemma CompressedBlockSettled(img: Raster, bs: nat, threshold: int, i: nat, j: nat)
    requires IsRaster(img) && bs > 0
    requires IsOrigin(Widen(Compress(img, bs, threshold)), bs, i, j)
    ensures Uniform(BlockAt(Widen(Compress(img, bs, threshold)), bs, i, j)) ||
            !Collapses(BlockAt(Widen(Compress(img, bs, threshold)), bs, i, j), threshold)
  {
    var out := Compress(img, bs, threshold);
    if Collapses(BlockAt(Cropped(img, bs), bs, i, j), threshold) {
      CompressCollapsedUniform(img, bs, threshold, i, j);
      WidenedUniform(out, bs, i, j);
    } else {
      CompressPassed(img, bs, threshold, i, j);
      WidenedAgree(out, img, bs, i, j);
      CroppedBlock(img, bs, i, j);
    }
  }

  /** Compressing a compressed image again changes nothing, for every
      threshold. */
  lemma CompressIdempotent(img: Raster, bs: nat, threshold: int)
    requires IsRaster(img) && bs > 0
    ensures Compress(Compress(img, bs, threshold), bs, threshold) == Compress(img, bs, threshold)
  {
    var out := Compress(img, bs, threshold);
    var w := Widen(out);
    CropWhole(w, bs);
    forall i: nat, j: nat | IsOrigin(w, bs, i, j)
      ensures Uniform(BlockAt(w, bs, i, j)) || !Collapses(BlockAt(w, bs, i, j), threshold)
    {
      CompressedBlockSettled(img, bs, threshold, i, j);
    }
    SettledIsFixed(w, bs, threshold);
    NarrowWiden(out);
  }

  /** An image smaller than one block in either direction compresses to an
      image without pixels, and the scan visits no block. */
  lemma SmallImageIsEmpty(img: Raster, bs: nat, threshold: int)
    requires IsRaster(img) && bs > 0 && (|img| < bs || Width(img) < bs)
    ensures forall r :: 0 <= r < |Compress(img, bs, threshold)| ==>
              Compress(img, bs, threshold)[r] == []
    ensures Scan(0, AlignDown(|img|, bs), AlignDown(Width(img), bs), bs) == []
  {
    var h, w := AlignDown(|img|, bs), AlignDown(Width(img), bs);
    var out := Compress(img, bs, threshold);
    if |img| < bs {
      DivMod(|img|, bs, 0, |img|);
      assert |out| == h == 0;
    } else {
      DivMod(Width(img), bs, 0, Width(img));
      assert w == 0;
      forall r | 0 <= r < |out| ensures out[r] == [] {
        assert |out[r]| == Width(out) == w;
      }
      ScanEmptyWidth(0, h, bs);
    }
  }

  lemma {:induction false} ScanEmptyWidth(i: nat, h: nat, bs: nat)
    requires bs > 0
    ensures Scan(i, h, 0, bs) == []
    decreases h - i
  {
    if i < h {
      ScanEmptyWidth(i + bs, h, bs);
    }
  }
}
