/** The compression step as the program runs it: the output buffer is a copy
    of the cropped input, overwritten block by block in two nested loops, with
    one progress report per row-band, and finally cast to 8 bits. */
module Compressor {
  import opened Arithmetic
  import opened Grids
  import opened Statistics
  import opened Quantizer
  import opened BlockScan
  import opened Progress
  import opened Pipeline

  /** The shape of an output buffer: the cropped height and width, three channels. */
  predicate Shaped<T>(out: array3<T>, g: Grid)
  {
    out.Length0 == |g| && (|g| > 0 ==> out.Length1 == Width(g)) && out.Length2 == Channels
  }

  /** np.copy of the cropped buffer into a fresh array of width w. */
  method CopyToBuffer(g: Grid, w: nat) returns (out: array3<real>)
    requires IsGrid(g) && (|g| > 0 ==> Width(g) == w)
    ensures fresh(out) && Shaped(out, g) && out.Length1 == w
    ensures forall r, c, k :: 0 <= r < out.Length0 && 0 <= c < out.Length1 && 0 <= k < Channels ==>
              out[r, c, k] == g[r][c][k]
  {
    out := new real[|g|, w, Channels];
    forall r, c, k | 0 <= r < |g| && 0 <= c < w && 0 <= k < Channels {
      out[r, c, k] := g[r][c][k];
    }
  }

  /** One iteration of the inner loop: the block at (i, j) is measured on the
      input and, below the threshold, overwritten in the output with its mean
      colour; otherwise it keeps the copied input. Afterwards the block holds
      the filter's output q and nothing outside the block has changed. */
  method ProcessBlock(g: Grid, bs: nat, threshold: int, ghost q: Grid, out: array3<real>, i: nat, j: nat)
    requires Divisible(g, bs) && IsOrigin(g, bs, i, j) && Shaped(out, g)
    requires q == Quantize(g, bs, threshold)
    requires forall r, c, k :: i <= r < i + bs && j <= c < j + bs && 0 <= k < Channels ==>
               out[r, c, k] == g[r][c][k]
    modifies out
    ensures forall r, c, k :: 0 <= r < out.Length0 && 0 <= c < out.Length1 && 0 <= k < Channels ==>
              out[r, c, k] == if i <= r < i + bs && j <= c < j + bs then q[r][c][k]
                              else old(out[r, c, k])
  {
    var block := BlockAt(g, bs, i, j);
    var variance := BlockVariance(block);
    if variance < threshold as real {
      var mean := MeanColour(block);
      forall r, c, k | i <= r < i + bs && j <= c < j + bs && 0 <= k < Channels {
        out[r, c, k] := mean[k];
      }
      CollapsedBlock(g, bs, threshold, i, j);
    } else {
      PassedBlock(g, bs, threshold, i, j);
    }
  }

  /** The inner loop over the blocks of the row-band starting at row i, left
      to right. The band ends up holding q; the rest of the buffer is not
      touched. The ghost result lists the blocks visited, in order. */
  method ProcessBand(g: Grid, bs: nat, threshold: int, ghost q: Grid, out: array3<real>, i: nat)
      returns (ghost visited: seq<(nat, nat)>)
    requires Divisible(g, bs) && Shaped(out, g) && out.Length1 % bs == 0
    requires q == Quantize(g, bs, threshold)
    requires i % bs == 0 && i + bs <= |g|
    requires forall r, c, k :: i <= r < i + bs && 0 <= c < out.Length1 && 0 <= k < Channels ==>
               out[r, c, k] == g[r][c][k]
    modifies out
    ensures forall r, c, k :: 0 <= r < out.Length0 && 0 <= c < out.Length1 && 0 <= k < Channels ==>
              out[r, c, k] == if i <= r < i + bs then q[r][c][k] else old(out[r, c, k])
    ensures visited == Band(i, 0, out.Length1, bs)
  {
    var w := out.Length1;
    visited := [];
    var j := 0;
    while j < w
      invariant j <= w && j % bs == 0
      invariant visited + Band(i, j, w, bs) == Band(i, 0, w, bs)
      invariant forall r, c, k :: 0 <= r < out.Length0 && 0 <= c < w && 0 <= k < Channels ==>
                  out[r, c, k] == if i <= r < i + bs && c < j then q[r][c][k]
                                  else old(out[r, c, k])
    {
      BlockFits(j, w, bs);
      ProcessBlock(g, bs, threshold, q, out, i, j);
      assert Band(i, j, w, bs) == [(i, j)] + Band(i, j + bs, w, bs);
      visited := visited + [(i, j)];
      NextOnGrid(j, bs);
      j := j + bs;
    }
  }

  /** One outer iteration appends the band starting at row i to the blocks visited. */
  lemma ScanStep(visited: seq<(nat, nat)>, i: nat, h: nat, w: nat, bs: nat)
    requires bs > 0 && i < h && visited + Scan(i, h, w, bs) == Scan(0, h, w, bs)
    ensures (visited + Band(i, 0, w, bs)) + Scan(i + bs, h, w, bs) == Scan(0, h, w, bs)
  {
    assert Scan(i, h, w, bs) == Band(i, 0, w, bs) + Scan(i + bs, h, w, bs);
    assert visited + (Band(i, 0, w, bs) + Scan(i + bs, h, w, bs)) ==
           (visited + Band(i, 0, w, bs)) + Scan(i + bs, h, w, bs);
  }

  /** One outer iteration appends int(100 * i / h) to the progress values. */
  lemma ReportStep(progress: seq<int>, i: nat, h: nat, bs: nat)
    requires bs > 0 && i < h && progress + BandReports(i, h, bs) == BandReports(0, h, bs)
    ensures (progress + [100 * i / h]) + BandReports(i + bs, h, bs) == BandReports(0, h, bs)
  {
    assert BandReports(i, h, bs) == [100 * i / h] + BandReports(i + bs, h, bs);
    assert progress + ([100 * i / h] + BandReports(i + bs, h, bs)) ==
           (progress + [100 * i / h]) + BandReports(i + bs, h, bs);
  }

  /** The nested block loops. The output buffer starts as a copy of the
      input; afterwards it holds the filtered buffer. Decisions read only the
      input g. The blocks are visited once each in row-major order, and the
      progress values are int(100 * i / H) for each row-band start i. */
  method QuantizeInPlace(g: Grid, bs: nat, threshold: int, out: array3<real>)
      returns (progress: seq<int>, ghost visited: seq<(nat, nat)>)
    requires Divisible(g, bs) && Shaped(out, g) && out.Length1 % bs == 0
    requires forall r, c, k :: 0 <= r < out.Length0 && 0 <= c < out.Length1 && 0 <= k < Channels ==>
               out[r, c, k] == g[r][c][k]
    modifies out
    ensures forall r, c, k :: 0 <= r < out.Length0 && 0 <= c < out.Length1 && 0 <= k < Channels ==>
              out[r, c, k] == Quantize(g, bs, threshold)[r][c][k]
    ensures progress == BandReports(0, |g|, bs)
    ensures visited == Scan(0, |g|, out.Length1, bs)
  {
    ghost var q := Quantize(g, bs, threshold);
    var h, w := out.Length0, out.Length1;
    progress, visited := [], [];
    var i := 0;
    while i < h
      invariant i <= h && i % bs == 0
      invariant progress + BandReports(i, h, bs) == BandReports(0, h, bs)
      invariant visited + Scan(i, h, w, bs) == Scan(0, h, w, bs)
      invariant forall r, c, k :: 0 <= r < h && 0 <= c < w && 0 <= k < Channels ==>
                  out[r, c, k] == if r < i then q[r][c][k] else g[r][c][k]
    {
      BlockFits(i, h, bs);
      ghost var band := ProcessBand(g, bs, threshold, q, out, i);
      ScanStep(visited, i, h, w, bs);
      visited := visited + band;
      ReportStep(progress, i, h, bs);
      progress := progress + [100 * i / h];
      NextOnGrid(i, bs);
      i := i + bs;
    }
  }

  /** astype(np.uint8): a fresh 8-bit array of the same shape. */
  method CastToUint8(out: array3<real>) returns (bytes: array3<int>)
    requires forall r, c, k :: 0 <= r < out.Length0 && 0 <= c < out.Length1 && 0 <= k < out.Length2 ==>
               0.0 <= out[r, c, k] <= 255.0
    ensures fresh(bytes)
    ensures bytes.Length0 == out.Length0 && bytes.Length1 == out.Length1 && bytes.Length2 == out.Length2
    ensures forall r, c, k :: 0 <= r < out.Length0 && 0 <= c < out.Length1 && 0 <= k < out.Length2 ==>
              bytes[r, c, k] == ToUint8(out[r, c, k])
  {
    bytes := new int[out.Length0, out.Length1, out.Length2];
    forall r, c, k | 0 <= r < out.Length0 && 0 <= c < out.Length1 && 0 <= k < out.Length2 {
      bytes[r, c, k] := ToUint8(out[r, c, k]);
    }
  }

  /** The compression of one image, from the decoded 8-bit pixels to the
      8-bit pixels handed to the encoder, with every progress value sent to
      the progress bar (the final 100 is sent once the encoder has saved; the
      save is taken to succeed). */
  method CompressImage(img: Raster, bs: nat, threshold: int)
      returns (bytes: array3<int>, progress: seq<int>)
    requires IsRaster(img) && bs > 0
    ensures fresh(bytes)
    ensures bytes.Length0 == AlignDown(|img|, bs) && bytes.Length1 == AlignDown(Width(img), bs)
    ensures bytes.Length2 == Channels
    ensures forall r, c, k :: 0 <= r < bytes.Length0 && 0 <= c < bytes.Length1 && 0 <= k < Channels ==>
              bytes[r, c, k] == Compress(img, bs, threshold)[r][c][k]
    ensures progress == Reported(bytes.Length0, bs)
  {
    var g := Cropped(img, bs);
    var w := AlignDown(Width(img), bs);
    var out := CopyToBuffer(g, w);
    ghost var visited;
    progress, visited := QuantizeInPlace(g, bs, threshold, out);
    QuantizeWithin(g, bs, threshold, 0.0, 255.0);
    bytes := CastToUint8(out);
    progress := progress + [100];
  }
}
