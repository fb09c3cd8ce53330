/** What the block filter computes, as functions of the cropped input buffer:
    the block a pixel belongs to, the block's joint variance and per-channel
    mean colour, and the pixel the output buffer ends up holding. */
module Quantizer {
  import opened Arithmetic
  import opened Grids
  import opened Statistics

  /** A buffer after the crop: height and width are multiples of the block size. */
  predicate Divisible(g: Grid, bs: nat)
  {
    bs > 0 && IsGrid(g) && |g| % bs == 0 && Width(g) % bs == 0
  }

  /** (i, j) is the top-left corner of one block of the buffer. */
  predicate IsOrigin(g: Grid, bs: nat, i: nat, j: nat)
  {
    bs > 0 && i % bs == 0 && j % bs == 0 && i + bs <= |g| && j + bs <= Width(g)
  }

  /** The slice g[i:i+bs, j:j+bs, :] as a buffer of its own. */
  function BlockAt(g: Grid, bs: nat, i: nat, j: nat): (b: Grid)
    requires IsGrid(g) && i + bs <= |g| && j + bs <= Width(g)
    ensures |b| == bs && IsGrid(b) && (bs > 0 ==> Width(b) == bs)
    ensures forall t, u :: 0 <= t < bs && 0 <= u < bs ==> b[t][u] == g[i + t][j + u]
  {
    seq(bs, t requires 0 <= t < bs => g[i + t][j .. j + bs])
  }

  /** A block has at least one pixel. */
  predicate NonEmpty(b: Grid)
  {
    IsGrid(b) && |b| > 0 && Width(b) > 0
  }

  /** Every sample of a block in row, column, channel order: the values np.var
      takes one variance over. */
  function Samples(b: Grid): (s: seq<real>)
    ensures NonEmpty(b) ==> |s| > 0
    ensures IsGrid(b) ==> |s| == |b| * Width(b) * Channels
  {
    var pixels := Flatten(b);
    assert NonEmpty(b) ==> pixels[0] == b[0][0];
    if IsGrid(b) then
      SampleCount(b);
      Flatten(pixels)
    else
      Flatten(pixels)
  }

  /** A grid has |b| * Width(b) pixels of Channels samples each. */
  lemma SampleCount(b: Grid)
    requires IsGrid(b)
    ensures |Flatten(Flatten(b))| == |b| * Width(b) * Channels
  {
    var pixels := Flatten(b);
    FlattenLength(b, Width(b));
    forall t | 0 <= t < |pixels| ensures |pixels[t]| == Channels {
      assert pixels[t] in pixels;
      FlattenMember(b, pixels[t]);
    }
    FlattenLength(pixels, Channels);
  }

  /** Channel k of the block, b[:, :, k], as one row per block row. */
  function Plane(b: Grid, k: nat): (p: seq<seq<real>>)
    requires IsGrid(b) && k < Channels
    ensures |p| == |b| && forall t :: 0 <= t < |b| ==> |p[t]| == |b[t]|
    ensures forall t, u :: 0 <= t < |b| && 0 <= u < |b[t]| ==> p[t][u] == b[t][u][k]
  {
    seq(|b|, t requires 0 <= t < |b| => seq(|b[t]|, u requires 0 <= u < |b[t]| => b[t][u][k]))
  }

  /** The channel-k samples of every pixel of the block, in row-major order. */
  function ChannelSamples(b: Grid, k: nat): (s: seq<real>)
    requires IsGrid(b) && k < Channels
    ensures NonEmpty(b) ==> |s| > 0
  {
    Flatten(Plane(b, k))
  }

  /** The joint variance of the block: one number over all pixels and all
      channels together, not one per channel. */
  function BlockVariance(b: Grid): (v: real)
    requires NonEmpty(b)
    ensures v >= 0.0
  {
    VarianceNonNegative(Samples(b));
    Variance(Samples(b))
  }

  /** The collapse test: strictly below the threshold. A variance equal to the
      threshold does not collapse, and since no variance is negative only a
      positive threshold collapses anything. */
  predicate Collapses(b: Grid, threshold: int)
    requires NonEmpty(b)
    ensures Collapses(b, threshold) ==> threshold > 0
  {
    BlockVariance(b) < threshold as real
  }

  /** The mean colour of the block, one mean per channel over the two spatial axes. */
  function MeanColour(b: Grid): (m: seq<real>)
    requires NonEmpty(b)
    ensures |m| == Channels
  {
    seq(Channels, k requires 0 <= k < Channels => Mean(ChannelSamples(b, k)))
  }

  /** The block that pixel row r, column c falls in starts at (AlignDown(r), AlignDown(c)). */
  lemma OriginOf(g: Grid, bs: nat, r: nat, c: nat)
    requires Divisible(g, bs) && r < |g| && c < Width(g)
    ensures IsOrigin(g, bs, AlignDown(r, bs), AlignDown(c, bs))
  {
    BlockFits(AlignDown(r, bs), |g|, bs);
    BlockFits(AlignDown(c, bs), Width(g), bs);
  }

  /** The output pixel at (r, c): the mean colour of its block when the block
      collapses, the input pixel otherwise. */
  function QuantizedPixel(g: Grid, bs: nat, threshold: int, r: nat, c: nat): (p: seq<real>)
    requires Divisible(g, bs) && r < |g| && c < Width(g)
    ensures |p| == Channels
  {
    OriginOf(g, bs, r, c);
    var b := BlockAt(g, bs, AlignDown(r, bs), AlignDown(c, bs));
    if Collapses(b, threshold) then MeanColour(b) else g[r][c]
  }

  /** The whole output buffer of the block filter. */
  function Quantize(g: Grid, bs: nat, threshold: int): (q: Grid)
    requires Divisible(g, bs)
    ensures |q| == |g| && Width(q) == Width(g) && Divisible(q, bs)
  {
    var w := Width(g);
    seq(|g|, r requires 0 <= r < |g| =>
      seq(w, c requires 0 <= c < w => QuantizedPixel(g, bs, threshold, r, c)))
  }

  /** A block whose joint variance is below the threshold ends up with every
      pixel equal to its per-channel mean colour. */
  lemma CollapsedBlock(g: Grid, bs: nat, threshold: int, i: nat, j: nat)
    requires Divisible(g, bs) && IsOrigin(g, bs, i, j)
    requires Collapses(BlockAt(g, bs, i, j), threshold)
    ensures forall r, c :: i <= r < i + bs && j <= c < j + bs ==>
              Quantize(g, bs, threshold)[r][c] == MeanColour(BlockAt(g, bs, i, j))
  {
    forall r, c | i <= r < i + bs && j <= c < j + bs
      ensures Quantize(g, bs, threshold)[r][c] == MeanColour(BlockAt(g, bs, i, j))
    {
      AlignDownInBlock(i, r, bs);
      AlignDownInBlock(j, c, bs);
    }
  }

  /** A block whose joint variance is at or above the threshold, equality
      included, is left exactly as it was. */
  lemma PassedBlock(g: Grid, bs: nat, threshold: int, i: nat, j: nat)
    requires Divisible(g, bs) && IsOrigin(g, bs, i, j)
    requires !Collapses(BlockAt(g, bs, i, j), threshold)
    ensures forall r, c :: i <= r < i + bs && j <= c < j + bs ==>
              Quantize(g, bs, threshold)[r][c] == g[r][c]
  {
    forall r, c | i <= r < i + bs && j <= c < j + bs
      ensures Quantize(g, bs, threshold)[r][c] == g[r][c]
    {
      AlignDownInBlock(i, r, bs);
      AlignDownInBlock(j, c, bs);
    }
  }

  /** Every channel-k sample of a block is channel k of one of its pixels. */
  lemma ChannelMember(b: Grid, k: nat, x: real)
    requires IsGrid(b) && k < Channels && x in ChannelSamples(b, k)
    ensures exists t, u :: 0 <= t < |b| && 0 <= u < |b[t]| && x == b[t][u][k]
  {
    var p := Plane(b, k);
    FlattenMember(p, x);
    var t :| 0 <= t < |p| && x in p[t];
    var u :| 0 <= u < |p[t]| && p[t][u] == x;
  }

  /** Every sample of the buffer lies in [lo, hi]. */
  predicate SamplesWithin(g: Grid, lo: real, hi: real)
    requires IsGrid(g)
  {
    forall r, c, k :: 0 <= r < |g| && 0 <= c < |g[r]| && 0 <= k < Channels ==>
      lo <= g[r][c][k] <= hi
  }

  /** A block's mean colour lies in any range that holds all its samples. */
  lemma MeanColourWithin(b: Grid, lo: real, hi: real)
    requires NonEmpty(b) && SamplesWithin(b, lo, hi)
    ensures forall k :: 0 <= k < Channels ==> lo <= MeanColour(b)[k] <= hi
  {
    forall k | 0 <= k < Channels ensures lo <= MeanColour(b)[k] <= hi {
      forall x | x in ChannelSamples(b, k) ensures lo <= x <= hi {
        ChannelMember(b, k, x);
      }
      MeanWithin(ChannelSamples(b, k), lo, hi);
    }
  }

  /** A block of a buffer whose samples lie in [lo, hi] has its samples in [lo, hi]. */
  lemma BlockWithin(g: Grid, bs: nat, i: nat, j: nat, lo: real, hi: real)
    requires Divisible(g, bs) && IsOrigin(g, bs, i, j) && SamplesWithin(g, lo, hi)
    ensures SamplesWithin(BlockAt(g, bs, i, j), lo, hi)
  {
    var b := BlockAt(g, bs, i, j);
    forall t, u, k | 0 <= t < |b| && 0 <= u < |b[t]| && 0 <= k < Channels
      ensures lo <= b[t][u][k] <= hi
    {
      assert b[t][u] == g[i + t][j + u];
    }
  }

  /** Each output pixel of a buffer with samples in [lo, hi] has its samples in [lo, hi]. */
  lemma PixelWithin(g: Grid, bs: nat, threshold: int, lo: real, hi: real, r: nat, c: nat)
    requires Divisible(g, bs) && SamplesWithin(g, lo, hi) && r < |g| && c < Width(g)
    ensures forall k :: 0 <= k < Channels ==> lo <= QuantizedPixel(g, bs, threshold, r, c)[k] <= hi
  {
    OriginOf(g, bs, r, c);
    var i, j := AlignDown(r, bs), AlignDown(c, bs);
    var b := BlockAt(g, bs, i, j);
    if Collapses(b, threshold) {
      BlockWithin(g, bs, i, j, lo, hi);
      MeanColourWithin(b, lo, hi);
    }
  }

  /** Means of in-range samples stay in range: the filter never leaves the
      range of its input, so samples in [0, 255] stay in [0, 255]. */
  lemma QuantizeWithin(g: Grid, bs: nat, threshold: int, lo: real, hi: real)
    requires Divisible(g, bs) && SamplesWithin(g, lo, hi)
    ensures SamplesWithin(Quantize(g, bs, threshold), lo, hi)
  {
    var q := Quantize(g, bs, threshold);
    forall r, c, k | 0 <= r < |q| && 0 <= c < |q[r]| && 0 <= k < Channels
      ensures lo <= q[r][c][k] <= hi
    {
      PixelWithin(g, bs, threshold, lo, hi, r, c);
      assert q[r][c] == QuantizedPixel(g, bs, threshold, r, c);
    }
  }

  /** Every pixel of the block has the same colour. */
  predicate Uniform(b: Grid)
    requires NonEmpty(b)
  {
    forall t, u :: 0 <= t < |b| && 0 <= u < |b[t]| ==> b[t][u] == b[0][0]
  }

  /** The mean colour of a one-colour block is that colour, so collapsing it
      changes nothing. */
  lemma UniformMean(b: Grid)
    requires NonEmpty(b) && Uniform(b)
    ensures MeanColour(b) == b[0][0]
  {
    forall k | 0 <= k < Channels ensures MeanColour(b)[k] == b[0][0][k] {
      forall x | x in ChannelSamples(b, k) ensures x == b[0][0][k] {
        ChannelMember(b, k, x);
      }
      MeanOfConstant(ChannelSamples(b, k), b[0][0][k]);
    }
  }

  /** Every block of the buffer is a fixed point of the filter: it has one
      colour, or its variance does not fall below the threshold. */
  ghost predicate Settled(g: Grid, bs: nat, threshold: int)
    requires IsGrid(g)
  {
    forall i: nat, j: nat :: IsOrigin(g, bs, i, j) ==>
      Uniform(BlockAt(g, bs, i, j)) || !Collapses(BlockAt(g, bs, i, j), threshold)
  }

  /** A settled buffer passes through the filter unchanged. */
  lemma SettledIsFixed(g: Grid, bs: nat, threshold: int)
    requires Divisible(g, bs) && Settled(g, bs, threshold)
    ensures Quantize(g, bs, threshold) == g
  {
    var q := Quantize(g, bs, threshold);
    forall r | 0 <= r < |g| ensures q[r] == g[r] {
      forall c | 0 <= c < Width(g) ensures q[r][c] == g[r][c] {
        OriginOf(g, bs, r, c);
        var i, j := AlignDown(r, bs), AlignDown(c, bs);
        var b := BlockAt(g, bs, i, j);
        if Collapses(b, threshold) {
          UniformMean(b);
          assert b[r - i][c - j] == g[r][c];
        }
      }
    }
  }

  /** The output of the filter is settled: a collapsed block has one colour,
      and a block left as it was keeps the variance that kept it. */
  lemma QuantizeSettles(g: Grid, bs: nat, threshold: int)
    requires Divisible(g, bs)
    ensures Settled(Quantize(g, bs, threshold), bs, threshold)
  {
    var q := Quantize(g, bs, threshold);
    forall i: nat, j: nat | IsOrigin(q, bs, i, j)
      ensures Uniform(BlockAt(q, bs, i, j)) || !Collapses(BlockAt(q, bs, i, j), threshold)
    {
      var b, bq := BlockAt(g, bs, i, j), BlockAt(q, bs, i, j);
      if Collapses(b, threshold) {
        CollapsedBlock(g, bs, threshold, i, j);
        assert Uniform(bq);
      } else {
        PassedBlock(g, bs, threshold, i, j);
        assert bq == b by {
          forall t | 0 <= t < bs ensures bq[t] == b[t] {
            assert forall u :: 0 <= u < bs ==> bq[t][u] == b[t][u];
          }
        }
      }
    }
  }

  /** Running the filter on its own output changes nothing, for every threshold. */
  lemma QuantizeIdempotent(g: Grid, bs: nat, threshold: int)
    requires Divisible(g, bs)
    ensures Quantize(Quantize(g, bs, threshold), bs, threshold) == Quantize(g, bs, threshold)
  {
    QuantizeSettles(g, bs, threshold);
    SettledIsFixed(Quantize(g, bs, threshold), bs, threshold);
  }

  /** Variances are never negative, so under a threshold of 0 or below no
      block collapses and the output equals the input. */
  lemma NonPositiveThresholdKeepsAll(g: Grid, bs: nat, threshold: int)
    requires Divisible(g, bs) && threshold <= 0
    ensures Quantize(g, bs, threshold) == g
  {
    forall i: nat, j: nat | IsOrigin(g, bs, i, j)
      ensures !Collapses(BlockAt(g, bs, i, j), threshold)
    {
      VarianceNonNegative(Samples(BlockAt(g, bs, i, j)));
    }
    SettledIsFixed(g, bs, threshold);
  }
}
