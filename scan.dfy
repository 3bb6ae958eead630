/**
  The brute-force scan: every window offset in a range is scored and its
  confidence byte is written at the window's centre in a zero-initialised map.
 */
module Scan {
  import opened Pixels
  import opened Metric

  /**
    The value at pixel (px, py) of a map in which every window whose top-left
    corner (x, y) lies in [x0, x1) × [y0, y1) has written its confidence at its
    centre (x + sw/2, y + sh/2), and every other pixel is still 0. Window corners
    and map pixels share one coordinate system (the source image's).
   */
  function CentreValue(sub: Image, img: Image, x0: nat, x1: nat, y0: nat, y1: nat, px: int, py: int): byte
    requires sub.Valid() && img.Valid()
    requires x1 + sub.width <= img.width && y1 + sub.height <= img.height
  {
    var x, y := px - sub.width / 2, py - sub.height / 2;
    if x0 <= x < x1 && y0 <= y < y1 then Score(sub, img, x, y) else 0
  }

  /** The centre of every scanned window carries that window's score. */
  lemma CentresCarryScores(sub: Image, img: Image, x0: nat, x1: nat, y0: nat, y1: nat, x: nat, y: nat)
    requires sub.Valid() && img.Valid()
    requires x1 + sub.width <= img.width && y1 + sub.height <= img.height
    requires x0 <= x < x1 && y0 <= y < y1
    ensures WindowFits(sub, img, x, y)
    ensures CentreValue(sub, img, x0, x1, y0, y1, x + sub.width / 2, y + sub.height / 2) == Score(sub, img, x, y)
  {
  }

  /** Whether the window with top-left corner (x, y) is centred on pixel (px, py). */
  predicate CentredOn(sub: Image, x: int, y: int, px: int, py: int) {
    x + sub.width / 2 == px && y + sub.height / 2 == py
  }

  /** A pixel that no scanned window is centred on stays 0. */
  lemma NonCentresStayZero(sub: Image, img: Image, x0: nat, x1: nat, y0: nat, y1: nat, px: int, py: int)
    requires sub.Valid() && img.Valid()
    requires x1 + sub.width <= img.width && y1 + sub.height <= img.height
    requires forall x, y :: x0 <= x < x1 && y0 <= y < y1 ==> !CentredOn(sub, x, y, px, py)
    ensures CentreValue(sub, img, x0, x1, y0, y1, px, py) == 0
  {
    var x, y := px - sub.width / 2, py - sub.height / 2;
    if x0 <= x < x1 && y0 <= y < y1 {
      assert CentredOn(sub, x, y, px, py);
    }
  }

  /** A window that matches the template on its non-black pixels puts 255 at its centre. */
  lemma ExactMatchShowsAtCentre(sub: Image, img: Image, x0: nat, x1: nat, y0: nat, y1: nat, x: nat, y: nat)
    requires sub.Valid() && img.Valid()
    requires x1 + sub.width <= img.width && y1 + sub.height <= img.height
    requires x0 <= x < x1 && y0 <= y < y1
    requires MatchesOnMask(sub, img, x, y)
    ensures CentreValue(sub, img, x0, x1, y0, y1, x + sub.width / 2, y + sub.height / 2) == 255
  {
    ExactMatchScoresFull(sub, img, x, y);
  }

  /**
    Scanning the window tops [y0, ym) and then [ym, y1) into the same map writes
    its centres exactly as one scan of [y0, y1) does: at most one of the two
    ranges has a window centred on any pixel.
   */
  lemma CentreValueSplit(sub: Image, img: Image, x0: nat, x1: nat, y0: nat, ym: nat, y1: nat, px: int, py: int)
    requires sub.Valid() && img.Valid()
    requires x1 + sub.width <= img.width && y1 + sub.height <= img.height
    requires y0 <= ym <= y1
    ensures CentreValue(sub, img, x0, x1, y0, ym, px, py) == 0 || CentreValue(sub, img, x0, x1, ym, y1, px, py) == 0
    ensures CentreValue(sub, img, x0, x1, y0, y1, px, py) ==
      (CentreValue(sub, img, x0, x1, y0, ym, px, py) as int + CentreValue(sub, img, x0, x1, ym, y1, px, py) as int) as byte
  {
  }

  /**
    One worker's strip: the view of `img` at (ox, oy) of size w × h, scanned at
    every offset in `0..w-sw` × `0..h-sh` into a fresh zero-initialised w × h map
    (`img_mt_accum`). Map pixel (xx, yy) corresponds to source pixel (ox + xx, oy + yy).
   */
  method ScanStrip(img: Image, sub: Image, ox: nat, oy: nat, w: nat, h: nat) returns (part: array2<byte>)
    requires img.Valid() && sub.Valid()
    requires ox + w <= img.width && oy + h <= img.height
    requires sub.width <= w && sub.height <= h
    ensures fresh(part) && part.Length0 == h && part.Length1 == w
    ensures forall yy, xx :: 0 <= yy < h && 0 <= xx < w ==>
      part[yy, xx] == CentreValue(sub, img, ox, ox + w - sub.width, oy, oy + h - sub.height, ox + xx, oy + yy)
  {
    var sw, sh := sub.width, sub.height;
    part := new byte[h, w]((_, _) => 0);
    var y := 0;
    while y < h - sh
      invariant y <= h - sh
      invariant forall yy, xx :: 0 <= yy < h && 0 <= xx < w ==>
        part[yy, xx] == CentreValue(sub, img, ox, ox + w - sw, oy, oy + y, ox + xx, oy + yy)
    {
      var x := 0;
      while x < w - sw
        invariant x <= w - sw
        invariant forall yy, xx :: 0 <= yy < h && 0 <= xx < w ==>
          part[yy, xx] ==
            if yy == y + sh / 2 then CentreValue(sub, img, ox, ox + x, oy + y, oy + y + 1, ox + xx, oy + yy)
            else CentreValue(sub, img, ox, ox + w - sw, oy, oy + y, ox + xx, oy + yy)
      {
        assert x + sw <= w && y + sh <= h;  // the window lies inside the strip's view
        var e := RootErrorSquaresMeanFull(sub, img, ox + x, oy + y);
        var pxerr := 255 - Clamp(e);
        part[y + sh / 2, x + sw / 2] := pxerr;
        x := x + 1;
      }
      y := y + 1;
    }
  }

  /**
    The single-worker scan: every offset in `skip_border..ih-sh` ×
    `skip_border..iw-sw-2*skip_border` of the whole source image, written at the
    window's centre into the zero-initialised final map (`img_final`). The
    column bound is computed inside the row loop, so it is evaluated, and must
    not underflow, only when some row is scanned; when none is, the map stays
    zero (the ensures then uses the empty column range starting at skip_border).
   */
  method ScanSingle(img: Image, sub: Image, b: nat, final: array2<byte>)
    requires img.Valid() && sub.Valid()
    requires img.width > sub.width + 2 * b && img.height > sub.height + 2 * b
    requires img.height > sub.height + 3 * b ==> img.width >= sub.width + 4 * b
    requires final.Length0 == img.height - 2 * b && final.Length1 == img.width - 2 * b
    requires forall yy, xx :: 0 <= yy < final.Length0 && 0 <= xx < final.Length1 ==> final[yy, xx] == 0
    modifies final
    ensures forall yy, xx :: 0 <= yy < final.Length0 && 0 <= xx < final.Length1 ==>
      final[yy, xx] == CentreValue(sub, img, b,
        if b < final.Length0 - sub.height then final.Length1 - sub.width - 2 * b else b,
        b, final.Length0 - sub.height, xx, yy)
  {
    var sw, sh := sub.width, sub.height;
    var iw, ih := final.Length1, final.Length0;
    var yEnd := ih - sh;
    ghost var xs: nat := if b < yEnd then iw - sw - 2 * b else b;
    var y := b;
    while y < yEnd
      invariant b <= y <= if b <= yEnd then yEnd else b
      invariant forall yy, xx :: 0 <= yy < ih && 0 <= xx < iw ==>
        final[yy, xx] == CentreValue(sub, img, b, xs, b, y, xx, yy)
    {
      var xEnd := iw - sw - 2 * b;
      assert xEnd == xs;
      var x := b;
      while x < xEnd
        invariant b <= x <= if b <= xEnd then xEnd else b
        invariant forall yy, xx :: 0 <= yy < ih && 0 <= xx < iw ==>
          final[yy, xx] ==
            if yy == y + sh / 2 then CentreValue(sub, img, b, x, y, y + 1, xx, yy)
            else CentreValue(sub, img, b, xs, b, y, xx, yy)
      {
        var e := RootErrorSquaresMeanFull(sub, img, x, y);
        var pxerr := 255 - Clamp(e);
        final[y + sh / 2, x + sw / 2] := pxerr;
        x := x + 1;
      }
      y := y + 1;
    }
  }
}
