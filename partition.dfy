/**
  Strip partitioning: how many template heights fit, how many workers run,
  and the start row and height of each worker's strip.
 */
module Partition {
  import opened Arith

  /** The measurements the partition depends on: the source image's size, the
      template's size, the border to skip and the number of CPUs. */
  datatype Geometry = Geometry(width: nat, height: nat, subWidth: nat, subHeight: nat, skipBorder: nat, cpus: nat)

  /**
    The measurements for which `main` and `do_search` neither fail an
    assertion, nor underflow an unsigned subtraction that they evaluate, nor
    divide by zero.
   */
  predicate Admissible(g: Geometry) {
    // the two assertions in main
    && g.width > g.subWidth + 2 * g.skipBorder
    && g.height > g.subHeight + 2 * g.skipBorder
    // subqty divides by the template height
    && g.subHeight > 0
    // ih - 2*skip_border in subqty and pih
    && g.height >= 4 * g.skipBorder
    // iw - 2*skip_border in piw
    && g.width >= 4 * g.skipBorder
    // iw - sw - 2*skip_border in the single scan, evaluated only once its outer
    // range skip_border..ih-sh is non-empty (on the multi-strip path this bound
    // follows from the others, see MultiPathFits)
    && (g.height > g.subHeight + 3 * g.skipBorder ==> g.width >= g.subWidth + 4 * g.skipBorder)
    // num_cpus::get() is never 0
    && g.cpus > 0
  }

  /** Width of the final map, `img.width() - skip_border*2`. */
  function Iw(g: Geometry): nat
    requires Admissible(g)
  {
    g.width - 2 * g.skipBorder
  }

  /** Height of the final map, `img.height() - skip_border*2`. */
  function Ih(g: Geometry): nat
    requires Admissible(g)
  {
    g.height - 2 * g.skipBorder
  }

  /** How many full template heights fit in `ih - 2*skip_border`. */
  function SubQty(g: Geometry): (q: nat)
    requires Admissible(g)
    ensures q * g.subHeight <= Ih(g) - 2 * g.skipBorder < q * g.subHeight + g.subHeight
  {
    QuotientRange(Ih(g) - 2 * g.skipBorder, g.subHeight);
    (Ih(g) - 2 * g.skipBorder) / g.subHeight
  }

  /**
    The worker count: start from the CPU count, lower it to subqty when fewer
    template heights fit, and fall back to one worker when fewer than four fit.
   */
  function ThreadCount(subqty: nat, cpus: nat): (thr: nat)
    requires cpus > 0
    ensures 1 <= thr <= cpus
    ensures subqty < 4 ==> thr == 1
    ensures subqty >= 4 ==> thr <= subqty && (thr == cpus || thr == subqty)
    ensures thr >= 2 <==> (subqty >= 4 && cpus >= 2)
  {
    var thr := cpus;
    var thr := if subqty < thr then subqty else thr;
    if subqty < 4 then 1 else thr
  }

  function Thr(g: Geometry): nat
    requires Admissible(g)
  {
    ThreadCount(SubQty(g), g.cpus)
  }

  /** Width of every strip, `iw - 2*skip_border`. */
  function Piw(g: Geometry): nat
    requires Admissible(g)
  {
    Iw(g) - 2 * g.skipBorder
  }

  /** Base strip height, `(ih - 2*skip_border) / thrqty`. */
  function Pih(g: Geometry): (p: nat)
    requires Admissible(g)
    ensures p * Thr(g) <= Ih(g) - 2 * g.skipBorder < p * Thr(g) + Thr(g)
  {
    QuotientRange(Ih(g) - 2 * g.skipBorder, Thr(g));
    (Ih(g) - 2 * g.skipBorder) / Thr(g)
  }

  /** Start row of strip t, `t * pih + skip_border`. */
  function StripTop(g: Geometry, t: nat): nat
    requires Admissible(g) && t < Thr(g)
  {
    t * Pih(g) + g.skipBorder
  }

  /** Height of strip t: `pih + sh`, except the last strip, which runs to `ih - skip_border`. */
  function StripHeight(g: Geometry, t: nat): nat
    requires Admissible(g) && t < Thr(g)
  {
    BasesFit(g);
    MulLeq(t, Thr(g) - 1, Pih(g));
    if t == Thr(g) - 1 then (Ih(g) - g.skipBorder) - StripTop(g, t) else Pih(g) + g.subHeight
  }

  // ---------------------------------------------------------------------------
  // Arithmetic helpers

  /** (r / p) * p <= r < (r / p) * p + p. */
  lemma QuotientRange(r: nat, p: nat)
    requires 0 < p
    ensures (r / p) * p <= r < (r / p) * p + p
  {
    assert r == (r / p) * p + r % p;
  }

  /** If d copies of s fit in n, then n / d is at least s. */
  lemma DivLowerBound(n: nat, d: nat, s: nat)
    requires d > 0 && d * s <= n
    ensures s <= n / d
  {
    QuotientRange(n, d);
    if n / d < s {
      MulLeq(n / d + 1, s, d);
    }
  }

  /** The thrqty base strips together fit in `ih - 2*skip_border`. */
  lemma BasesFit(g: Geometry)
    requires Admissible(g)
    ensures Thr(g) * Pih(g) <= Ih(g) - 2 * g.skipBorder
  {
    QuotientRange(Ih(g) - 2 * g.skipBorder, Thr(g));
  }

  // ---------------------------------------------------------------------------
  // Properties of the partition

  /** A base strip is at least one template high whenever the worker count does not exceed subqty. */
  lemma BaseStripFitsTemplate(g: Geometry)
    requires Admissible(g) && Thr(g) <= SubQty(g)
    ensures g.subHeight <= Pih(g)
  {
    var n, sh, t := Ih(g) - 2 * g.skipBorder, g.subHeight, Thr(g);
    QuotientRange(n, sh);
    assert sh * SubQty(g) <= n;
    MulLeq(t, SubQty(g), sh);
    DivLowerBound(n, t, sh);
  }

  /**
    Adjacent strips start pih rows apart, and every strip but the last runs sh
    rows into the next one; the last strip ends at `ih - skip_border`.
   */
  lemma StripsOverlap(g: Geometry, t: nat)
    requires Admissible(g) && t < Thr(g)
    ensures t + 1 < Thr(g) ==> StripTop(g, t + 1) == StripTop(g, t) + Pih(g)
    ensures t + 1 < Thr(g) ==> StripTop(g, t) + StripHeight(g, t) == StripTop(g, t + 1) + g.subHeight
    ensures t + 1 == Thr(g) ==> StripTop(g, t) + StripHeight(g, t) == Ih(g) - g.skipBorder
  {
  }

  /**
    With two or more workers at least four template heights fit in
    `ih - 2*skip_border`, so the single scan's outer range would be non-empty
    and `piw - sw` does not underflow.
   */
  lemma MultiPathFits(g: Geometry)
    requires Admissible(g) && 2 <= Thr(g)
    ensures 4 * g.subHeight <= Ih(g) - 2 * g.skipBorder
    ensures g.height > g.subHeight + 3 * g.skipBorder && g.width >= g.subWidth + 4 * g.skipBorder
  {
    var n := Ih(g) - 2 * g.skipBorder;
    QuotientRange(n, g.subHeight);
    MulLeq(4, SubQty(g), g.subHeight);
  }

  /** Only an image with room for a scanned row below the borders takes the multi-strip path. */
  lemma MultiPathNeedsRows(g: Geometry)
    requires Admissible(g)
    ensures 2 <= Thr(g) ==> g.height > g.subHeight + 3 * g.skipBorder
  {
    if 2 <= Thr(g) {
      MultiPathFits(g);
    }
  }

  /**
    A 4 × 4 image, a 1 × 1 template and a border of 1 pass main's assertions and
    every subtraction `do_search` evaluates, although `iw - sw - 2*skip_border`
    would underflow: the single scan's row range `1..1` is empty.
   */
  lemma SmallBorderedImageAdmitted()
    ensures Admissible(Geometry(4, 4, 1, 1, 1, 1))
    ensures Thr(Geometry(4, 4, 1, 1, 1, 1)) == 1
  {
  }

  /**
    With two or more workers every strip is at least one template high (so
    `th - sh` does not underflow) and every strip lies inside the rows
    `[skip_border, ih - skip_border)`, which in turn lie inside both the source
    image and the final map; the strip width fits both as well.
   */
  lemma StripFits(g: Geometry, t: nat)
    requires Admissible(g) && 2 <= Thr(g) && t < Thr(g)
    ensures g.subHeight <= StripHeight(g, t)
    ensures g.skipBorder <= StripTop(g, t)
    ensures StripTop(g, t) + StripHeight(g, t) <= Ih(g) - g.skipBorder
    ensures Ih(g) <= g.height
    ensures g.subWidth <= Piw(g) && g.skipBorder + Piw(g) <= Iw(g) && Iw(g) <= g.width
  {
    MultiPathFits(g);
    StripRowsFit(g, t);
  }

  /** The row half of StripFits. */
  lemma StripRowsFit(g: Geometry, t: nat)
    requires Admissible(g) && 2 <= Thr(g) && t < Thr(g)
    ensures g.subHeight <= StripHeight(g, t)
    ensures StripTop(g, t) + StripHeight(g, t) <= Ih(g) - g.skipBorder
  {
    var n, p, T, b := Ih(g) - 2 * g.skipBorder, Pih(g), Thr(g), g.skipBorder;
    assert g.subHeight <= p && T * p <= n by {
      BasesFit(g);
      BaseStripFitsTemplate(g);
    }
    var tp := t * p;
    StripArithmetic(n, p, T, t, g.subHeight);
    assert StripTop(g, t) == tp + b;
    if t + 1 < T {
      assert StripHeight(g, t) == p + g.subHeight;
    } else {
      assert StripHeight(g, t) == n - tp;
    }
  }

  /** The arithmetic behind StripFits, over plain numbers: n rows, base height p, T strips. */
  lemma StripArithmetic(n: nat, p: nat, T: nat, t: nat, sh: nat)
    requires t < T && T * p <= n && sh <= p
    ensures t + 1 < T ==> t * p + p + sh <= n
    ensures t + 1 == T ==> sh <= n - t * p
  {
    MulLeq(t + 1, T, p);
    assert (t + 1) * p == t * p + p;
    if t + 1 < T {
      MulLeq(t + 2, T, p);
      assert (t + 2) * p == t * p + p + p;
    }
  }

  /** The window-top rows of strip t: a window whose top row is in
      `[StripTop, StripTop + StripHeight - sh)` is scanned by strip t. */
  predicate OwnsTop(g: Geometry, t: nat, top: int)
    requires Admissible(g) && t < Thr(g)
  {
    StripTop(g, t) <= top < StripTop(g, t) + StripHeight(g, t) - g.subHeight
  }

  /** The strip whose scan covers window-top row `top`. */
  function StripOf(g: Geometry, top: nat): (t: nat)
    requires Admissible(g) && 2 <= Thr(g)
    requires g.skipBorder <= top < Ih(g) - g.skipBorder - g.subHeight
    ensures t < Thr(g) && OwnsTop(g, t, top)
  {
    BaseStripFitsTemplate(g);
    var t := OwnerIndex(top - g.skipBorder, Pih(g), Thr(g));
    StripsOverlap(g, t);
    t
  }

  /** `min(r / p, T - 1)`: the base strip of height p holding row r, the last strip taking the rest. */
  function OwnerIndex(r: nat, p: nat, T: nat): (t: nat)
    requires 0 < p && 1 <= T
    ensures t < T && t * p <= r
    ensures t + 1 < T ==> r < t * p + p
  {
    var k := r / p;
    QuotientRange(r, p);
    OwnerBounds(r, p, T, k);
    if k < T - 1 then k else T - 1
  }

  lemma OwnerBounds(r: nat, p: nat, T: nat, k: nat)
    requires 1 <= T && k * p <= r < k * p + p
    ensures k < T - 1 ==> r < k * p + p
    ensures T - 1 <= k ==> (T - 1) * p <= r
  {
    if T - 1 <= k {
      MulLeq(T - 1, k, p);
    }
  }

  /** No window top belongs to two strips: every window is scanned exactly once. */
  lemma OwnedOnce(g: Geometry, t1: nat, t2: nat, top: int)
    requires Admissible(g) && 2 <= Thr(g) && t1 < Thr(g) && t2 < Thr(g)
    requires OwnsTop(g, t1, top) && OwnsTop(g, t2, top)
    ensures t1 == t2
  {
    if t1 < t2 {
      StripsOverlap(g, t1);
      MulLeq(t1 + 1, t2, Pih(g));
    } else if t2 < t1 {
      StripsOverlap(g, t2);
      MulLeq(t2 + 1, t1, Pih(g));
    }
  }

  /** The strips together cover every row of `[skip_border, ih - skip_border)`. */
  lemma StripsCoverRows(g: Geometry, row: nat)
    requires Admissible(g) && 2 <= Thr(g)
    requires g.skipBorder <= row < Ih(g) - g.skipBorder
    ensures exists t :: 0 <= t < Thr(g) && StripTop(g, t) <= row < StripTop(g, t) + StripHeight(g, t)
  {
    var last := Thr(g) - 1;
    StripFits(g, last);
    StripsOverlap(g, last);
    if row < Ih(g) - g.skipBorder - g.subHeight {
      var t := StripOf(g, row);
      StripFits(g, t);
    } else {
      assert StripTop(g, last) <= row < StripTop(g, last) + StripHeight(g, last);
    }
  }
}
