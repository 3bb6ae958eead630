/**
  The error metric: a root-mean-square error between the template and one
  window of the source image, and the confidence byte derived from it.
  Template pixels that are exactly black (0,0,0) do not take part.
 */
module Metric {
  import opened Pixels
  import opened Arith

  /** A black template pixel is a "don't care" pixel. */
  predicate IsBlack(p: Rgb) {
    p.r == 0 && p.g == 0 && p.b == 0
  }

  function Square(d: int): nat {
    d * d
  }

  /** Sum of the three squared channel differences of two pixels. */
  function PixelError(p: Rgb, q: Rgb): nat {
    Square(p.r as int - q.r as int) + Square(p.g as int - q.g as int) + Square(p.b as int - q.b as int)
  }

  /** The template-sized window of `img` with top-left corner (ox, oy) lies inside `img`. */
  predicate WindowFits(sub: Image, img: Image, ox: nat, oy: nat) {
    ox + sub.width <= img.width && oy + sub.height <= img.height
  }

  /** What template pixel (x, y) adds to the accumulator: nothing when it is black. */
  function Term(sub: Image, img: Image, ox: nat, oy: nat, x: nat, y: nat): nat
    requires sub.Valid() && img.Valid() && WindowFits(sub, img, ox, oy)
    requires x < sub.width && y < sub.height
  {
    var p := sub.At(x, y);
    if IsBlack(p) then 0 else PixelError(p, img.At(ox + x, oy + y))
  }

  /** Accumulated error of the first n pixels of template row y. */
  function RowError(sub: Image, img: Image, ox: nat, oy: nat, y: nat, n: nat): nat
    requires sub.Valid() && img.Valid() && WindowFits(sub, img, ox, oy)
    requires y < sub.height && n <= sub.width
  {
    if n == 0 then 0 else RowError(sub, img, ox, oy, y, n - 1) + Term(sub, img, ox, oy, n - 1, y)
  }

  /** Accumulated error of the first m template rows. */
  function RowsError(sub: Image, img: Image, ox: nat, oy: nat, m: nat): nat
    requires sub.Valid() && img.Valid() && WindowFits(sub, img, ox, oy)
    requires m <= sub.height
  {
    if m == 0 then 0 else RowsError(sub, img, ox, oy, m - 1) + RowError(sub, img, ox, oy, m - 1, sub.width)
  }

  /** The accumulator `acc` after the whole window: the squared channel errors
      summed over every non-black template pixel. */
  function WindowError(sub: Image, img: Image, ox: nat, oy: nat): nat
    requires sub.Valid() && img.Valid() && WindowFits(sub, img, ox, oy)
  {
    RowsError(sub, img, ox, oy, sub.height)
  }

  /** The window agrees with the template on every non-black template pixel. */
  ghost predicate MatchesOnMask(sub: Image, img: Image, ox: nat, oy: nat)
    requires sub.Valid() && img.Valid() && WindowFits(sub, img, ox, oy)
  {
    forall x, y :: 0 <= x < sub.width && 0 <= y < sub.height && !IsBlack(sub.At(x, y)) ==>
      img.At(ox + x, oy + y) == sub.At(x, y)
  }

  /** Integer square root: the largest r with r * r <= n. */
  function ISqrt(n: nat): (r: nat)
    ensures r * r <= n < (r + 1) * (r + 1)
  {
    if n == 0 then 0
    else
      var s := ISqrt(n - 1);
      assert (s + 1) * (s + 1) < (s + 2) * (s + 2);
      if (s + 1) * (s + 1) <= n then s + 1 else s
  }

  /**
    `(acc / qty / 3).powf(0.5)`, taken in exact real arithmetic and truncated
    toward zero, as the `as u8` cast that follows does: r is the integer part of
    the square root of acc / (3 * qty). With qty == 0 the quotient is NaN when
    acc == 0 (the cast gives 0) and +infinity otherwise (the cast saturates).
   */
  function Rmse(acc: nat, qty: nat): (r: nat)
    ensures qty > 0 ==> r * r * (3 * qty) <= acc < (r + 1) * (r + 1) * (3 * qty)
    ensures qty == 0 ==> (r == 0 <==> acc == 0)
  {
    if qty == 0 then (if acc == 0 then 0 else 255)
    else
      RootBounds(acc, 3 * qty);
      ISqrt(acc / (3 * qty))
  }

  /** The truncated root of n / d, stated without division. */
  lemma RootBounds(n: nat, d: nat)
    requires d > 0
    ensures ISqrt(n / d) * ISqrt(n / d) * d <= n < (ISqrt(n / d) + 1) * (ISqrt(n / d) + 1) * d
  {
    var r := ISqrt(n / d);
    FloorDivBounds(n, d, r * r, (r + 1) * (r + 1));
  }

  /** For d > 0: lo <= n / d < hi means lo * d <= n < hi * d. */
  lemma FloorDivBounds(n: nat, d: nat, lo: nat, hi: nat)
    requires d > 0 && lo <= n / d < hi
    ensures lo * d <= n < hi * d
  {
    var q := n / d;
    assert n == q * d + n % d;
    MulLeq(lo, q, d);
    MulLeq(q + 1, hi, d);
  }

  /**
    The confidence byte `255 - (rmse as u8)`: Rmse truncated the root and the
    cast saturates at 255 (Clamp). The saturating cast keeps the
    subtraction inside 0..255, so no byte arithmetic overflows.
   */
  function Confidence(acc: nat, qty: nat): (c: byte)
    ensures acc == 0 ==> c == 255
    ensures qty > 0 ==> (c == 255 <==> acc < 3 * qty)
    ensures qty > 0 ==> (c == 0 <==> 255 * 255 * (3 * qty) <= acc)
  {
    var r := Rmse(acc, qty);
    RmseExtremes(acc, qty);
    255 - Clamp(r)
  }

  /** Where the truncated root is 0 and where it reaches the saturation point 255. */
  lemma RmseExtremes(acc: nat, qty: nat)
    ensures qty > 0 ==> (Rmse(acc, qty) == 0 <==> acc < 3 * qty)
    ensures qty > 0 ==> (Rmse(acc, qty) >= 255 <==> 255 * 255 * (3 * qty) <= acc)
  {
    var r := Rmse(acc, qty);
    if qty > 0 {
      if r >= 255 { MulLeq(255, r, 255); MulLeq(255, r, r); MulLeq(255 * 255, r * r, 3 * qty); }
      if 255 * 255 * (3 * qty) <= acc { LessSquares(r, 255, acc, 3 * qty); }
      if r >= 1 { MulLeq(1, r, r); MulLeq(1, r * r, 3 * qty); }
    }
  }

  /** If a * a * d <= n < (b + 1) * (b + 1) * d then a <= b. */
  lemma LessSquares(b: nat, a: nat, n: nat, d: nat)
    requires d > 0 && a * a * d <= n < (b + 1) * (b + 1) * d
    ensures a <= b
  {
    if a > b {
      MulLeq(b + 1, a, b + 1);
      MulLeq(b + 1, a, a);
      MulLeq((b + 1) * (b + 1), a * a, d);
    }
  }

  /** More accumulated error never gives a higher confidence. */
  lemma ConfidenceAntitone(acc1: nat, acc2: nat, qty: nat)
    requires acc1 <= acc2
    ensures Confidence(acc2, qty) <= Confidence(acc1, qty)
  {
    var r1, r2 := Rmse(acc1, qty), Rmse(acc2, qty);
    if qty > 0 {
      LessSquares(r2, r1, acc2, 3 * qty);
    }
  }

  /** The confidence of the window at (ox, oy): `255 - (calc_root_error_squares_mean_full(sub, sam) as u8)`.
      The divisor is the template width, not its pixel count. */
  function Score(sub: Image, img: Image, ox: nat, oy: nat): byte
    requires sub.Valid() && img.Valid() && WindowFits(sub, img, ox, oy)
  {
    Confidence(WindowError(sub, img, ox, oy), sub.width)
  }

  /**
    `calc_root_error_squares_mean_full`: a nested loop over the template that
    skips black template pixels and adds the three squared channel differences
    of every other pixel to `acc`; then the root of acc / width / 3.
   */
  method RootErrorSquaresMeanFull(sub: Image, img: Image, ox: nat, oy: nat) returns (rmse: nat)
    requires sub.Valid() && img.Valid() && WindowFits(sub, img, ox, oy)
    ensures rmse == Rmse(WindowError(sub, img, ox, oy), sub.width)
  {
    var qty := sub.width;
    var acc: nat := 0;
    for y := 0 to sub.height
      invariant acc == RowsError(sub, img, ox, oy, y)
    {
      for x := 0 to sub.width
        invariant acc == RowsError(sub, img, ox, oy, y) + RowError(sub, img, ox, oy, y, x)
      {
        var p := sub.At(x, y);
        if !IsBlack(p) {
          var q := img.At(ox + x, oy + y);
          acc := acc + Square(p.r as int - q.r as int);
          acc := acc + Square(p.g as int - q.g as int);
          acc := acc + Square(p.b as int - q.b as int);
        }
      }
    }
    rmse := Rmse(acc, qty);
  }

  // ---------------------------------------------------------------------------
  // Properties of the accumulator

  /** A pixel term is zero exactly when the template pixel is black or the window pixel equals it. */
  lemma TermZeroIff(sub: Image, img: Image, ox: nat, oy: nat, x: nat, y: nat)
    requires sub.Valid() && img.Valid() && WindowFits(sub, img, ox, oy)
    requires x < sub.width && y < sub.height
    ensures Term(sub, img, ox, oy, x, y) == 0 <==> (IsBlack(sub.At(x, y)) || img.At(ox + x, oy + y) == sub.At(x, y))
  {
    var p, q := sub.At(x, y), img.At(ox + x, oy + y);
    if !IsBlack(p) && p != q {
      if p.r != q.r { SquarePositive(p.r as int - q.r as int); }
      else if p.g != q.g { SquarePositive(p.g as int - q.g as int); }
      else { SquarePositive(p.b as int - q.b as int); }
    }
  }

  lemma SquarePositive(d: int)
    requires d != 0
    ensures Square(d) > 0
  {
    if d > 0 { MulLeq(1, d, d); } else { MulLeq(1, -d, -d); }
  }

  lemma {:induction false} RowErrorZeroIff(sub: Image, img: Image, ox: nat, oy: nat, y: nat, n: nat)
    requires sub.Valid() && img.Valid() && WindowFits(sub, img, ox, oy)
    requires y < sub.height && n <= sub.width
    ensures RowError(sub, img, ox, oy, y, n) == 0 <==> forall x :: 0 <= x < n ==> Term(sub, img, ox, oy, x, y) == 0
  {
    if n > 0 {
      RowErrorZeroIff(sub, img, ox, oy, y, n - 1);
    }
  }

  lemma {:induction false} RowsErrorZeroIff(sub: Image, img: Image, ox: nat, oy: nat, m: nat)
    requires sub.Valid() && img.Valid() && WindowFits(sub, img, ox, oy)
    requires m <= sub.height
    ensures RowsError(sub, img, ox, oy, m) == 0 <==>
      forall x, y :: 0 <= x < sub.width && 0 <= y < m ==> Term(sub, img, ox, oy, x, y) == 0
  {
    if m > 0 {
      RowsErrorZeroIff(sub, img, ox, oy, m - 1);
      RowErrorZeroIff(sub, img, ox, oy, m - 1, sub.width);
    }
  }

  /** The accumulator is zero exactly when the window equals the template on every non-black template pixel. */
  lemma WindowErrorZeroIff(sub: Image, img: Image, ox: nat, oy: nat)
    requires sub.Valid() && img.Valid() && WindowFits(sub, img, ox, oy)
    ensures WindowError(sub, img, ox, oy) == 0 <==> MatchesOnMask(sub, img, ox, oy)
  {
    RowsErrorZeroIff(sub, img, ox, oy, sub.height);
    forall x, y | 0 <= x < sub.width && 0 <= y < sub.height
      ensures Term(sub, img, ox, oy, x, y) == 0 <==> (IsBlack(sub.At(x, y)) || img.At(ox + x, oy + y) == sub.At(x, y))
    {
      TermZeroIff(sub, img, ox, oy, x, y);
    }
  }

  /** A window that matches the template on its non-black pixels scores 255. */
  lemma ExactMatchScoresFull(sub: Image, img: Image, ox: nat, oy: nat)
    requires sub.Valid() && img.Valid() && WindowFits(sub, img, ox, oy)
    requires MatchesOnMask(sub, img, ox, oy)
    ensures Score(sub, img, ox, oy) == 255
  {
    WindowErrorZeroIff(sub, img, ox, oy);
  }

  /** Two windows (in the same or in different images) that agree on every non-black template pixel. */
  ghost predicate AgreeOnMask(sub: Image, img1: Image, ox1: nat, oy1: nat, img2: Image, ox2: nat, oy2: nat)
    requires sub.Valid() && img1.Valid() && WindowFits(sub, img1, ox1, oy1)
    requires img2.Valid() && WindowFits(sub, img2, ox2, oy2)
  {
    forall x, y :: 0 <= x < sub.width && 0 <= y < sub.height && !IsBlack(sub.At(x, y)) ==>
      img1.At(ox1 + x, oy1 + y) == img2.At(ox2 + x, oy2 + y)
  }

  lemma {:induction false} RowErrorIgnoresMask(sub: Image, img1: Image, ox1: nat, oy1: nat, img2: Image, ox2: nat, oy2: nat, y: nat, n: nat)
    requires sub.Valid() && img1.Valid() && WindowFits(sub, img1, ox1, oy1)
    requires img2.Valid() && WindowFits(sub, img2, ox2, oy2)
    requires AgreeOnMask(sub, img1, ox1, oy1, img2, ox2, oy2)
    requires y < sub.height && n <= sub.width
    ensures RowError(sub, img1, ox1, oy1, y, n) == RowError(sub, img2, ox2, oy2, y, n)
  {
    if n > 0 {
      RowErrorIgnoresMask(sub, img1, ox1, oy1, img2, ox2, oy2, y, n - 1);
    }
  }

  lemma {:induction false} RowsErrorIgnoresMask(sub: Image, img1: Image, ox1: nat, oy1: nat, img2: Image, ox2: nat, oy2: nat, m: nat)
    requires sub.Valid() && img1.Valid() && WindowFits(sub, img1, ox1, oy1)
    requires img2.Valid() && WindowFits(sub, img2, ox2, oy2)
    requires AgreeOnMask(sub, img1, ox1, oy1, img2, ox2, oy2)
    requires m <= sub.height
    ensures RowsError(sub, img1, ox1, oy1, m) == RowsError(sub, img2, ox2, oy2, m)
  {
    if m > 0 {
      RowsErrorIgnoresMask(sub, img1, ox1, oy1, img2, ox2, oy2, m - 1);
      RowErrorIgnoresMask(sub, img1, ox1, oy1, img2, ox2, oy2, m - 1, sub.width);
    }
  }

  /** Mask exclusion: what the window holds under black template pixels does not affect the error. */
  lemma MaskExclusion(sub: Image, img1: Image, ox1: nat, oy1: nat, img2: Image, ox2: nat, oy2: nat)
    requires sub.Valid() && img1.Valid() && WindowFits(sub, img1, ox1, oy1)
    requires img2.Valid() && WindowFits(sub, img2, ox2, oy2)
    requires AgreeOnMask(sub, img1, ox1, oy1, img2, ox2, oy2)
    ensures WindowError(sub, img1, ox1, oy1) == WindowError(sub, img2, ox2, oy2)
    ensures Score(sub, img1, ox1, oy1) == Score(sub, img2, ox2, oy2)
  {
    RowsErrorIgnoresMask(sub, img1, ox1, oy1, img2, ox2, oy2, sub.height);
  }
}
