/** The order in which the compressor visits blocks: the nested loops over
    range(0, H, bs) and range(0, W, bs), outer loop over rows. */
module BlockScan {
  import opened Arithmetic

  /** The block origins (i, j), (i, j + bs), ... of the row-band starting at
      row i, for every column j' >= j below w: the inner loop
      `for j in range(0, W, bs)` when j = 0. All lie in row i, columns [j, w). */
  function Band(i: nat, j: nat, w: nat, bs: nat): (origins: seq<(nat, nat)>)
    requires bs > 0
    ensures forall n :: 0 <= n < |origins| ==> origins[n].0 == i && j <= origins[n].1 < w
    decreases w - j
  {
    if j >= w then [] else [(i, j)] + Band(i, j + bs, w, bs)
  }

  /** The block origins of the row-bands starting at rows i, i + bs, ... below h,
      each band left to right: the outer loop `for i in range(0, H, bs)` when
      i = 0. Every origin lies in rows [i, h) and columns [0, w). */
  function Scan(i: nat, h: nat, w: nat, bs: nat): (origins: seq<(nat, nat)>)
    requires bs > 0
    ensures forall n :: 0 <= n < |origins| ==> i <= origins[n].0 < h && origins[n].1 < w
    decreases h - i
  {
    if i >= h then []
    else
      var band, rest := Band(i, 0, w, bs), Scan(i + bs, h, w, bs);
      assert forall n :: 0 <= n < |band| + |rest| ==>
        (band + rest)[n] == if n < |band| then band[n] else rest[n - |band|];
      band + rest
  }

  /** Row-major order: an earlier row, or the same row and an earlier column. */
  predicate Before(a: (nat, nat), b: (nat, nat))
  {
    a.0 < b.0 || (a.0 == b.0 && a.1 < b.1)
  }

  /** Strictly increasing in row-major order, so no origin appears twice. */
  predicate RowMajor(s: seq<(nat, nat)>)
  {
    forall x, y :: 0 <= x < y < |s| ==> Before(s[x], s[y])
  }

  /** Two row-major sequences, every element of the first before every
      element of the second, concatenate to a row-major sequence. */
  lemma ConcatRowMajor(a: seq<(nat, nat)>, b: seq<(nat, nat)>)
    requires RowMajor(a) && RowMajor(b)
    requires forall x, y :: 0 <= x < |a| && 0 <= y < |b| ==> Before(a[x], b[y])
    ensures RowMajor(a + b)
  {
  }

  lemma {:induction false} BandRowMajor(i: nat, j: nat, w: nat, bs: nat)
    requires bs > 0
    ensures RowMajor(Band(i, j, w, bs))
    decreases w - j
  {
    if j < w {
      BandRowMajor(i, j + bs, w, bs);
      ConcatRowMajor([(i, j)], Band(i, j + bs, w, bs));
    }
  }

  /** The scan visits blocks in row-major order, top to bottom and left to
      right, and visits none twice. */
  lemma {:induction false} ScanRowMajor(i: nat, h: nat, w: nat, bs: nat)
    requires bs > 0
    ensures RowMajor(Scan(i, h, w, bs))
    decreases h - i
  {
    if i < h {
      BandRowMajor(i, 0, w, bs);
      ScanRowMajor(i + bs, h, w, bs);
      ConcatRowMajor(Band(i, 0, w, bs), Scan(i + bs, h, w, bs));
    }
  }

  lemma {:induction false} BandCovers(i: nat, j: nat, w: nat, bs: nat, x: nat, y: nat)
    requires bs > 0 && j % bs == 0
    ensures (x, y) in Band(i, j, w, bs) <==> x == i && j <= y < w && y % bs == 0
    decreases w - j
  {
    if j < w {
      NextOnGrid(j, bs);
      BandCovers(i, j + bs, w, bs, x, y);
      if y % bs == 0 && j < y {
        GridGap(j, y, bs);
      }
    }
  }

  lemma {:induction false} ScanCoversFrom(i: nat, h: nat, w: nat, bs: nat, x: nat, y: nat)
    requires bs > 0 && i % bs == 0
    ensures (x, y) in Scan(i, h, w, bs) <==>
              i <= x < h && x % bs == 0 && y < w && y % bs == 0
    decreases h - i
  {
    if i < h {
      NextOnGrid(i, bs);
      BandCovers(i, 0, w, bs, x, y);
      ScanCoversFrom(i + bs, h, w, bs, x, y);
      if x % bs == 0 && i < x {
        GridGap(i, x, bs);
      }
    }
  }

  /** The scan visits exactly the blocks of the grid: every origin on the
      block grid inside the h×w buffer, and nothing else. */
  lemma ScanCovers(h: nat, w: nat, bs: nat, x: nat, y: nat)
    requires bs > 0
    ensures (x, y) in Scan(0, h, w, bs) <==> x < h && y < w && x % bs == 0 && y % bs == 0
  {
    ScanCoversFrom(0, h, w, bs, x, y);
  }

  /** Blocks do not overlap: a visited block holds pixel (r, c) exactly when
      it is the block starting at (AlignDown(r), AlignDown(c)). So the pixels
      of the buffer are split among the visited blocks, one block each. */
  lemma OneBlockPerPixel(h: nat, w: nat, bs: nat, r: nat, c: nat, x: nat, y: nat)
    requires bs > 0 && r < h && c < w
    requires (x, y) in Scan(0, h, w, bs)
    ensures (x <= r < x + bs && y <= c < y + bs) <==>
              (x == AlignDown(r, bs) && y == AlignDown(c, bs))
  {
    ScanCovers(h, w, bs, x, y);
    if x <= r < x + bs && y <= c < y + bs {
      AlignDownInBlock(x, r, bs);
      AlignDownInBlock(y, c, bs);
    }
  }

  /** The block holding any pixel of the buffer is visited. */
  lemma PixelBlockVisited(h: nat, w: nat, bs: nat, r: nat, c: nat)
    requires bs > 0 && r < h && c < w
    ensures (AlignDown(r, bs), AlignDown(c, bs)) in Scan(0, h, w, bs)
  {
    ScanCovers(h, w, bs, AlignDown(r, bs), AlignDown(c, bs));
  }
}
