/**
  The search engine (`do_search` without its file I/O): choose the worker
  count, scan either the strips one after another and merge their partial
  maps in strip order, or scan the whole image in one pass.
 */
module Search {
  import opened Pixels
  import opened Metric
  import opened Partition
  import opened Scan
  import opened Merge

  /** `g` holds the measurements of `img` and `sub`, and the run does not panic. */
  ghost predicate Fits(img: Image, sub: Image, g: Geometry) {
    && img.Valid() && sub.Valid()
    && g.width == img.width && g.height == img.height
    && g.subWidth == sub.width && g.subHeight == sub.height
    && Admissible(g)
  }

  // ---------------------------------------------------------------------------
  // Which windows each path scans (source-image coordinates, exclusive ends)

  /** The multi-strip path scans window lefts `skip_border + (0..piw-sw)`. */
  function MultiLeftEnd(g: Geometry): (r: nat)
    requires Admissible(g) && 2 <= Thr(g)
    ensures r + g.subWidth <= g.width
  {
    MultiPathFits(g);
    g.skipBorder + Piw(g) - g.subWidth
  }

  /** The multi-strip path scans window tops up to where the last strip's scan stops. */
  function MultiTopEnd(g: Geometry): nat
    requires Admissible(g) && 2 <= Thr(g)
  {
    StripFits(g, Thr(g) - 1);
    StripsOverlap(g, Thr(g) - 1);
    Ih(g) - g.skipBorder - g.subHeight
  }

  /**
    The single path scans window lefts `skip_border..iw-sw-2*skip_border`. That
    bound is evaluated only when some row is scanned; when none is, no window is
    scanned and the column range is taken empty.
   */
  function SingleLeftEnd(g: Geometry): (r: nat)
    requires Admissible(g)
    ensures r + g.subWidth <= g.width
  {
    if g.skipBorder < SingleTopEnd(g) then Iw(g) - g.subWidth - 2 * g.skipBorder else g.skipBorder
  }

  /** The single path scans window tops `skip_border..ih-sh`. */
  function SingleTopEnd(g: Geometry): nat
    requires Admissible(g)
  {
    Ih(g) - g.subHeight
  }

  function ScanLeftEnd(g: Geometry): nat
    requires Admissible(g)
  {
    if Thr(g) >= 2 then MultiLeftEnd(g) else SingleLeftEnd(g)
  }

  function ScanTopEnd(g: Geometry): nat
    requires Admissible(g)
  {
    if Thr(g) >= 2 then MultiTopEnd(g) else SingleTopEnd(g)
  }

  /**
    Where the two paths' window ranges end: the multi-strip path's column range
    ends b later and its row range ends b earlier than the single path's, and
    the range ends coincide exactly when b == 0.
   */
  lemma PathsAgreeWithoutBorder(g: Geometry)
    requires Admissible(g) && 2 <= Thr(g)
    ensures MultiLeftEnd(g) == SingleLeftEnd(g) + g.skipBorder
    ensures MultiTopEnd(g) + g.skipBorder == SingleTopEnd(g)
    ensures (MultiLeftEnd(g) == SingleLeftEnd(g) && MultiTopEnd(g) == SingleTopEnd(g)) <==> g.skipBorder == 0
  {
    MultiPathFits(g);
  }

  /**
    When the borders leave no room for a scanned row (height <= sh + 3b), the
    single path runs, scans no window and leaves the final map all zero.
   */
  lemma BorderLeavesNoRows(img: Image, sub: Image, g: Geometry, x: int, y: int)
    requires Fits(img, sub, g) && g.height <= g.subHeight + 3 * g.skipBorder
    ensures Thr(g) == 1
    ensures CentreValue(sub, img, g.skipBorder, ScanLeftEnd(g), g.skipBorder, ScanTopEnd(g), x, y) == 0
  {
    MultiPathNeedsRows(g);
  }

  /**
    With a border b > 0 on the multi-strip path's inputs, both paths' row ranges
    are non-empty and the single path's reaches further: the row with top
    `MultiTopEnd` lies in the single path's row range only. The single path
    scans any window at all (and so one in that row) exactly when W > sw + 5b.
    When W >= sw + 5b the column with left `SingleLeftEnd` lies in the
    multi-strip path's column range only, and the multi-strip path scans
    windows in it.
   */
  lemma PathsDifferWithBorder(g: Geometry)
    requires Admissible(g) && 2 <= Thr(g) && g.skipBorder > 0
    ensures g.skipBorder < MultiTopEnd(g) < SingleTopEnd(g)
    ensures g.skipBorder < SingleLeftEnd(g) <==> g.width > g.subWidth + 5 * g.skipBorder
    ensures g.width >= g.subWidth + 5 * g.skipBorder ==> g.skipBorder <= SingleLeftEnd(g) < MultiLeftEnd(g)
  {
    MultiPathFits(g);
  }

  // ---------------------------------------------------------------------------
  // The strips as values

  /** What strip t's partial map holds, as a value placed at (skip_border, ty). */
  ghost function StripPart(img: Image, sub: Image, g: Geometry, t: nat): Part
    requires Fits(img, sub, g) && 2 <= Thr(g) && t < Thr(g)
  {
    StripFits(g, t);
    var top, th, piw, b := StripTop(g, t), StripHeight(g, t), Piw(g), g.skipBorder;
    Part(b, top, seq(th, yy => seq(piw, xx =>
      CentreValue(sub, img, b, b + piw - sub.width, top, top + th - sub.height, b + xx, top + yy))))
  }

  /** The partial maps of strips 0..k, in index order (the order `collect` keeps). */
  ghost function StripParts(img: Image, sub: Image, g: Geometry, k: nat): (ps: seq<Part>)
    requires Fits(img, sub, g) && 2 <= Thr(g) && k <= Thr(g)
    ensures |ps| == k
    ensures forall i :: 0 <= i < k ==> ps[i] == StripPart(img, sub, g, i)
  {
    if k == 0 then [] else StripParts(img, sub, g, k - 1) + [StripPart(img, sub, g, k - 1)]
  }

  /** One past the last window top scanned by strips 0..k. */
  function CoveredTop(g: Geometry, k: nat): (r: nat)
    requires Admissible(g) && 2 <= Thr(g) && k <= Thr(g)
    ensures g.skipBorder <= r && r + g.subHeight <= Ih(g) - g.skipBorder && Ih(g) <= g.height
  {
    StripFits(g, 0);
    if k == 0 then g.skipBorder
    else
      StripFits(g, k - 1);
      StripTop(g, k - 1) + StripHeight(g, k - 1) - g.subHeight
  }

  /** One past the last window top strip t scans. */
  function StripScanEnd(g: Geometry, t: nat): (r: nat)
    requires Admissible(g) && 2 <= Thr(g) && t < Thr(g)
    ensures StripTop(g, t) <= r && r + g.subHeight <= g.height
  {
    StripFits(g, t);
    StripTop(g, t) + StripHeight(g, t) - g.subHeight
  }

  /**
    Composing strip t's partial map into a pixel adds the value a scan of that
    strip's window tops writes there; outside the strip's rectangle that value
    is 0, so nothing changes.
   */
  lemma StripContribution(img: Image, sub: Image, g: Geometry, t: nat, v: byte, x: int, y: int)
    requires Fits(img, sub, g) && 2 <= Thr(g) && t < Thr(g)
    ensures Compose(v, StripPart(img, sub, g, t), x, y) ==
      SatAdd(v, CentreValue(sub, img, g.skipBorder, MultiLeftEnd(g), StripTop(g, t), StripScanEnd(g, t), x, y))
  {
    StripFits(g, t);
    var p := StripPart(img, sub, g, t);
    var b, top, th, piw := g.skipBorder, StripTop(g, t), StripHeight(g, t), Piw(g);
    var cur := CentreValue(sub, img, b, MultiLeftEnd(g), top, top + th - sub.height, x, y);
    assert |p.px| == th;
    if top <= y < top + th {
      assert |p.px[y - top]| == piw;
    }
    if Covers(p, x, y) {
      assert Contribution(p, x, y) == cur;
    } else {
      assert cur == 0;
    }
  }

  /**
    After merging strips 0..k into the zero map, every pixel holds exactly what
    a single scan of the window tops `[skip_border, CoveredTop(k))` puts there:
    since each window top belongs to one strip only, the saturating sums never
    add two non-zero values.
   */
  lemma {:induction false} MergedStripsShowCentres(img: Image, sub: Image, g: Geometry, k: nat, x: int, y: int)
    requires Fits(img, sub, g) && 2 <= Thr(g) && k <= Thr(g)
    ensures Overlaid(0, StripParts(img, sub, g, k), x, y) ==
      CentreValue(sub, img, g.skipBorder, MultiLeftEnd(g), g.skipBorder, CoveredTop(g, k), x, y)
  {
    if k > 0 {
      var t := k - 1;
      StripFits(g, t);
      MergedStripsShowCentres(img, sub, g, t, x, y);
      var ps := StripParts(img, sub, g, k);
      assert ps[..t] == StripParts(img, sub, g, t);
      var b, top, th := g.skipBorder, StripTop(g, t), StripHeight(g, t);
      if t > 0 { StripsOverlap(g, t - 1); }
      assert CoveredTop(g, t) == top;
      var prev := Overlaid(0, ps[..t], x, y);
      StripContribution(img, sub, g, t, prev, x, y);
      CentreValueSplit(sub, img, b, MultiLeftEnd(g), b, top, top + th - sub.height, x, y);
    }
  }

  // ---------------------------------------------------------------------------
  // The engine

  /**
    The parallel map over strip indices, run sequentially in index order: for
    every strip, its start row `ty` and its freshly scanned partial map.
   */
  method ScanStrips(img: Image, sub: Image, g: Geometry) returns (results: seq<(nat, array2<byte>)>)
    requires Fits(img, sub, g) && 2 <= Thr(g)
    ensures |results| == Thr(g)
    ensures forall i :: 0 <= i < |results| ==> fresh(results[i].1)
    ensures forall i :: 0 <= i < |results| ==>
      results[i].1.Length0 == StripHeight(g, i) && results[i].1.Length1 == Piw(g)
    ensures forall i :: 0 <= i < |results| ==>
      results[i].0 == StripTop(g, i) && Holds(StripPart(img, sub, g, i), g.skipBorder, results[i].0, results[i].1)
  {
    var thr, piw := Thr(g), Piw(g);
    results := [];
    for t := 0 to thr
      invariant |results| == t
      invariant forall i :: 0 <= i < t ==> fresh(results[i].1)
      invariant forall i :: 0 <= i < t ==>
        results[i].1.Length0 == StripHeight(g, i) && results[i].1.Length1 == Piw(g)
      invariant forall i :: 0 <= i < t ==>
        results[i].0 == StripTop(g, i) && Holds(StripPart(img, sub, g, i), g.skipBorder, results[i].0, results[i].1)
    {
      var ty := StripTop(g, t);
      var th := StripHeight(g, t);
      StripFits(g, t);
      var part := ScanStrip(img, sub, g.skipBorder, ty, piw, th);
      results := results + [(ty, part)];
    }
  }

  /**
    The multi-thread case: allocate the zero final map (`img_final`), scan
    every strip, then merge the partial maps into it in strip order.
   */
  method SearchStrips(img: Image, sub: Image, g: Geometry) returns (final: array2<byte>)
    requires Fits(img, sub, g) && 2 <= Thr(g)
    ensures fresh(final) && final.Length0 == Ih(g) && final.Length1 == Iw(g)
    ensures forall yy, xx :: 0 <= yy < final.Length0 && 0 <= xx < final.Length1 ==>
      final[yy, xx] == CentreValue(sub, img, g.skipBorder, MultiLeftEnd(g), g.skipBorder, MultiTopEnd(g), xx, yy)
  {
    var thr := Thr(g);
    final := new byte[Ih(g), Iw(g)]((_, _) => 0);
    var results := ScanStrips(img, sub, g);
    ghost var parts := StripParts(img, sub, g, thr);
    forall i | 0 <= i < |results|
      ensures results[i].1 != final
      ensures g.skipBorder + results[i].1.Length1 <= final.Length1 && results[i].0 + results[i].1.Length0 <= final.Length0
    {
      StripFits(g, i);
    }
    MergeAll(final, results, g.skipBorder, parts);
    StripsOverlap(g, thr - 1);
    assert CoveredTop(g, thr) == MultiTopEnd(g);
    forall yy, xx | 0 <= yy < final.Length0 && 0 <= xx < final.Length1
      ensures final[yy, xx] == CentreValue(sub, img, g.skipBorder, MultiLeftEnd(g), g.skipBorder, MultiTopEnd(g), xx, yy)
    {
      MergedStripsShowCentres(img, sub, g, thr, xx, yy);
    }
  }

  /**
    `do_search` from the partition to the finished map: the final map has the
    size `iw × ih` and holds, at the centre of every window the chosen path
    scans, that window's confidence, and 0 everywhere else.
   */
  method Search(img: Image, sub: Image, skipBorder: nat, cpus: nat) returns (final: array2<byte>)
    requires img.Valid() && sub.Valid()
    requires Admissible(Geometry(img.width, img.height, sub.width, sub.height, skipBorder, cpus))
    ensures fresh(final)
    ensures var g := Geometry(img.width, img.height, sub.width, sub.height, skipBorder, cpus);
      && final.Length0 == Ih(g) && final.Length1 == Iw(g)
      && ScanLeftEnd(g) + sub.width <= img.width && ScanTopEnd(g) + sub.height <= img.height
      && forall yy, xx :: 0 <= yy < final.Length0 && 0 <= xx < final.Length1 ==>
           final[yy, xx] == CentreValue(sub, img, skipBorder, ScanLeftEnd(g), skipBorder, ScanTopEnd(g), xx, yy)
  {
    var g := Geometry(img.width, img.height, sub.width, sub.height, skipBorder, cpus);
    if Thr(g) >= 2 {
      final := SearchStrips(img, sub, g);
    } else {
      final := new byte[Ih(g), Iw(g)]((_, _) => 0);
      ScanSingle(img, sub, skipBorder, final);
    }
  }
}
