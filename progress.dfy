/** The progress values the compressor sends to the progress bar: one per
    row-band of blocks, then 100 once the image is saved. */
module Progress {
  import opened Arithmetic

  /** int(100 * i / h) for the row-bands starting at rows i, i + bs, ... below h.
      The dividend is never negative, so truncation is the floor that integer
      division computes, and h is positive whenever a band exists. Each value
      lies in [0, 100) and is at least the value of the band starting at i. */
  function BandReports(i: nat, h: nat, bs: nat): (reports: seq<int>)
    requires bs > 0
    ensures forall p :: p in reports ==> 0 <= p < 100 && i < h && 100 * i / h <= p
    decreases h - i
  {
    if i >= h then []
    else
      ReportInRange(i, h);
      DivMonotone(100 * i, 100 * (i + bs), h);
      [100 * i / h] + BandReports(i + bs, h, bs)
  }

  /** Everything the progress bar receives for a cropped height h: the
      per-band values and then the final 100. */
  function Reported(h: nat, bs: nat): (reports: seq<int>)
    requires bs > 0
    ensures |reports| > 0 && reports[|reports| - 1] == 100
  {
    BandReports(0, h, bs) + [100]
  }

  predicate NonDecreasing(s: seq<int>)
  {
    forall x, y :: 0 <= x <= y < |s| ==> s[x] <= s[y]
  }

  /** The value reported for a band starting at row i < h lies in [0, 100). */
  lemma ReportInRange(i: nat, h: nat)
    requires i < h
    ensures 0 <= 100 * i / h < 100
  {
    DivBelow(100 * i, 100, h);
    DivMonotone(0, 100 * i, h);
  }

  /** The per-band values never decrease. */
  lemma {:induction false} BandReportsNonDecreasing(i: nat, h: nat, bs: nat)
    requires bs > 0
    ensures NonDecreasing(BandReports(i, h, bs))
    decreases h - i
  {
    if i < h {
      DivMonotone(100 * i, 100 * (i + bs), h);
      BandReportsNonDecreasing(i + bs, h, bs);
      var rest := BandReports(i + bs, h, bs);
      assert forall y :: 0 <= y < |rest| ==> rest[y] in rest;
    }
  }

  /** The progress bar sees values in [0, 100] that never decrease and end
      with 100; for an image with no row-band it sees only the 100. */
  lemma ReportedProgress(h: nat, bs: nat)
    requires bs > 0
    ensures NonDecreasing(Reported(h, bs))
    ensures forall p :: p in Reported(h, bs) ==> 0 <= p <= 100
    ensures Reported(h, bs)[|Reported(h, bs)| - 1] == 100
    ensures h == 0 ==> Reported(h, bs) == [100]
  {
    BandReportsNonDecreasing(0, h, bs);
    var bands := BandReports(0, h, bs);
    assert forall y :: 0 <= y < |bands| ==> bands[y] in bands;
  }
}
