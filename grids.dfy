/** Pixel grids (the H×W×C buffers of the compressor) and the crop to whole blocks. */
module Grids {
  import opened Arithmetic

  /** A pixel buffer: rows of pixels, each pixel a sequence of channel samples. */
  type Grid = seq<seq<seq<real>>>

  /** Images are converted to RGB before compression, so every pixel has three channels. */
  const Channels: nat := 3

  /** The number of columns of a grid (0 for a grid without rows). */
  function Width<T>(g: seq<seq<T>>): (n: nat)
  {
    if |g| == 0 then 0 else |g[0]|
  }

  /** Every row has Width(g) pixels and every pixel has Channels samples. */
  predicate IsGrid<T>(g: seq<seq<seq<T>>>)
  {
    forall r :: 0 <= r < |g| ==>
      |g[r]| == Width(g) && forall c :: 0 <= c < |g[r]| ==> |g[r][c]| == Channels
  }

  /** code.py:185-187: H and W are cut down to multiples of the block size by
      dropping the rows and columns at the high-index edge. */
  function Crop<T>(g: seq<seq<seq<T>>>, bs: nat): (cropped: seq<seq<seq<T>>>)
    requires bs > 0 && IsGrid(g)
    ensures IsGrid(cropped)
    ensures |cropped| == AlignDown(|g|, bs)
    ensures |cropped| > 0 ==> Width(cropped) == AlignDown(Width(g), bs)
    ensures forall r, c :: 0 <= r < |cropped| && 0 <= c < Width(cropped) ==>
              cropped[r][c] == g[r][c]
  {
    var h, w := AlignDown(|g|, bs), AlignDown(Width(g), bs);
    seq(h, r requires 0 <= r < h => g[r][..w])
  }

  /** The pieces of a sequence of sequences, concatenated in order. */
  function Flatten<T>(ss: seq<seq<T>>): (s: seq<T>)
    ensures |ss| > 0 ==> |s| >= |ss[0]| && s[..|ss[0]|] == ss[0]
  {
    if ss == [] then [] else ss[0] + Flatten(ss[1..])
  }

  /** Pieces all of length n flatten to |ss| * n elements. */
  lemma {:induction false} FlattenLength<T>(ss: seq<seq<T>>, n: nat)
    requires forall t :: 0 <= t < |ss| ==> |ss[t]| == n
    ensures |Flatten(ss)| == |ss| * n
  {
    if ss != [] {
      FlattenLength(ss[1..], n);
      assert |ss| * n == n + |ss[1..]| * n;
    }
  }

  /** An element of the flattening is an element of one of the pieces, and
      every element of every piece is in the flattening. */
  lemma {:induction false} FlattenMember<T>(ss: seq<seq<T>>, x: T)
    ensures x in Flatten(ss) <==> exists t :: 0 <= t < |ss| && x in ss[t]
  {
    if ss != [] {
      FlattenMember(ss[1..], x);
      if x in Flatten(ss[1..]) {
        var t :| 0 <= t < |ss[1..]| && x in ss[1..][t];
        assert x in ss[t + 1];
      }
      if exists t :: 0 <= t < |ss| && x in ss[t] {
        var t :| 0 <= t < |ss| && x in ss[t];
        if t > 0 { assert x in ss[1..][t - 1]; }
      }
    }
  }
}
