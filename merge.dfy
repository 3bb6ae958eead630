/**
  The merge: each worker's partial map is composed into the final map at its
  strip's position by saturating addition of the gray values.
 */
module Merge {
  import opened Pixels

  /** `(pbase[0] as u32) + (pover[0] as u32)`, clamped to 255. */
  function SatAdd(a: byte, b: byte): byte {
    Clamp(a as int + b as int)
  }

  /** A partial map as a value: its pixels `px[yi][xi]`, composed at (left + xi, top + yi). */
  datatype Part = Part(left: nat, top: nat, px: seq<seq<byte>>)

  /** Pixel (x, y) of the final map lies inside the part's rectangle. */
  predicate Covers(p: Part, x: int, y: int) {
    p.top <= y < p.top + |p.px| && p.left <= x < p.left + |p.px[y - p.top]|
  }

  /** What the part holds at final-map pixel (x, y); 0 outside its rectangle. */
  function Contribution(p: Part, x: int, y: int): byte {
    if Covers(p, x, y) then p.px[y - p.top][x - p.left] else 0
  }

  /** One merge step at pixel (x, y): saturating addition inside the part's rectangle, no change outside. */
  function Compose(v: byte, p: Part, x: int, y: int): byte {
    if Covers(p, x, y) then SatAdd(v, Contribution(p, x, y)) else v
  }

  /** The value at (x, y) after composing the parts, in order, into a map whose value there was `base`. */
  function Overlaid(base: byte, ps: seq<Part>, x: int, y: int): byte
    decreases |ps|
  {
    if ps == [] then base else Compose(Overlaid(base, ps[..|ps| - 1], x, y), ps[|ps| - 1], x, y)
  }

  /** Sum of the parts' contributions at (x, y). */
  function Total(ps: seq<Part>, x: int, y: int): nat
    decreases |ps|
  {
    if ps == [] then 0 else Total(ps[..|ps| - 1], x, y) + Contribution(ps[|ps| - 1], x, y) as int
  }

  // ---------------------------------------------------------------------------
  // Order independence

  /** The merged pixel is the base plus the sum of all contributions, clamped once at 255. */
  lemma {:induction false} OverlaidClosedForm(base: byte, ps: seq<Part>, x: int, y: int)
    ensures Overlaid(base, ps, x, y) == Clamp(base as int + Total(ps, x, y))
    decreases |ps|
  {
    if ps != [] {
      OverlaidClosedForm(base, ps[..|ps| - 1], x, y);
    }
  }

  lemma {:induction false} TotalAppend(a: seq<Part>, b: seq<Part>, x: int, y: int)
    ensures Total(a + b, x, y) == Total(a, x, y) + Total(b, x, y)
    decreases |b|
  {
    if b == [] {
      assert a + b == a;
    } else {
      var b' := b[..|b| - 1];
      assert (a + b)[..|a + b| - 1] == a + b';
      TotalAppend(a, b', x, y);
    }
  }

  /** Removing part k takes its contribution out of the sum. */
  lemma TotalRemove(qs: seq<Part>, k: nat, x: int, y: int)
    requires k < |qs|
    ensures Total(qs, x, y) == Total(qs[..k] + qs[k + 1..], x, y) + Contribution(qs[k], x, y) as int
  {
    var q := qs[k];
    assert qs == (qs[..k] + [q]) + qs[k + 1..];
    TotalAppend(qs[..k] + [q], qs[k + 1..], x, y);
    TotalAppend(qs[..k], [q], x, y);
    TotalAppend(qs[..k], qs[k + 1..], x, y);
    assert Total([q], x, y) == Contribution(q, x, y) as int by {
      assert [q][..0] == [];
    }
  }

  /** Removing element k of a sequence removes one occurrence of it from its multiset. */
  lemma MultisetRemove<T>(qs: seq<T>, k: nat)
    requires k < |qs|
    ensures multiset(qs[..k] + qs[k + 1..]) == multiset(qs) - multiset{qs[k]}
  {
    assert qs == qs[..k] + [qs[k]] + qs[k + 1..];
  }

  /** Permuting the parts does not change the sum of their contributions. */
  lemma {:induction false} TotalPermutation(ps: seq<Part>, qs: seq<Part>, x: int, y: int)
    requires multiset(ps) == multiset(qs)
    ensures Total(ps, x, y) == Total(qs, x, y)
    decreases |ps|
  {
    if ps == [] {
      assert |qs| == |multiset(qs)| == 0;
    } else {
      var n := |ps| - 1;
      assert ps[n] in multiset(qs);
      var k :| 0 <= k < |qs| && qs[k] == ps[n];
      MultisetRemove(ps, n);
      MultisetRemove(qs, k);
      assert ps[..n] + ps[n + 1..] == ps[..n];
      TotalPermutation(ps[..n], qs[..k] + qs[k + 1..], x, y);
      TotalSwapLast(ps, qs, k, x, y);
    }
  }

  /** If all but the last part of ps sum like qs without part k, and that part is ps's last, the sums agree. */
  lemma TotalSwapLast(ps: seq<Part>, qs: seq<Part>, k: nat, x: int, y: int)
    requires ps != [] && k < |qs| && qs[k] == ps[|ps| - 1]
    requires Total(ps[..|ps| - 1], x, y) == Total(qs[..k] + qs[k + 1..], x, y)
    ensures Total(ps, x, y) == Total(qs, x, y)
  {
    TotalRemove(qs, k, x, y);
  }

  /** Merging the partial maps in any order gives the same final map. */
  lemma OverlaidOrderIndependent(base: byte, ps: seq<Part>, qs: seq<Part>, x: int, y: int)
    requires multiset(ps) == multiset(qs)
    ensures Overlaid(base, ps, x, y) == Overlaid(base, qs, x, y)
  {
    OverlaidClosedForm(base, ps, x, y);
    OverlaidClosedForm(base, qs, x, y);
    TotalPermutation(ps, qs, x, y);
  }

  // ---------------------------------------------------------------------------
  // The merge loops

  /** The part value p describes array r placed at (left, top). */
  ghost predicate Holds(p: Part, left: nat, top: nat, r: array2<byte>)
    reads r
  {
    && p.left == left && p.top == top
    && |p.px| == r.Length0
    && (forall i :: 0 <= i < |p.px| ==> |p.px[i]| == r.Length1)
    && forall i, j :: 0 <= i < r.Length0 && 0 <= j < r.Length1 ==> p.px[i][j] == r[i, j]
  }

  /**
    Composes partial map r into `final` at (left, top): each pixel inside r's
    rectangle becomes the saturating sum of its old value and r's, in all
    three channels; pixels outside it are unchanged.
   */
  method MergeInto(final: array2<byte>, r: array2<byte>, left: nat, top: nat)
    requires r != final
    requires left + r.Length1 <= final.Length1 && top + r.Length0 <= final.Length0
    modifies final
    ensures forall yy, xx :: 0 <= yy < final.Length0 && 0 <= xx < final.Length1 ==>
      final[yy, xx] ==
        if top <= yy < top + r.Length0 && left <= xx < left + r.Length1
        then SatAdd(old(final[yy, xx]), r[yy - top, xx - left])
        else old(final[yy, xx])
  {
    for yi := 0 to r.Length0
      invariant forall yy, xx :: 0 <= yy < final.Length0 && 0 <= xx < final.Length1 ==>
        final[yy, xx] ==
          if top <= yy < top + yi && left <= xx < left + r.Length1
          then SatAdd(old(final[yy, xx]), r[yy - top, xx - left])
          else old(final[yy, xx])
    {
      for xi := 0 to r.Length1
        invariant forall yy, xx :: 0 <= yy < final.Length0 && 0 <= xx < final.Length1 ==>
          final[yy, xx] ==
            if (top <= yy < top + yi && left <= xx < left + r.Length1) || (yy == top + yi && left <= xx < left + xi)
            then SatAdd(old(final[yy, xx]), r[yy - top, xx - left])
            else old(final[yy, xx])
      {
        var pover := r[yi, xi];
        var pbase := final[yi + top, xi + left];
        var psumm := pbase as int + pover as int;
        var psumm' := if psumm <= 255 then psumm as byte else 255;
        final[yi + top, xi + left] := psumm';
      }
    }
  }

  /**
    The merge loop: the partial maps `results` (start row, map), in index
    order, each composed into `final` at column `left`. `parts` names their
    contents as values.
   */
  method MergeAll(final: array2<byte>, results: seq<(nat, array2<byte>)>, left: nat, ghost parts: seq<Part>)
    requires |parts| == |results|
    requires forall i :: 0 <= i < |results| ==> results[i].1 != final
    requires forall i :: 0 <= i < |results| ==>
      left + results[i].1.Length1 <= final.Length1 && results[i].0 + results[i].1.Length0 <= final.Length0
    requires forall i :: 0 <= i < |results| ==> Holds(parts[i], left, results[i].0, results[i].1)
    modifies final
    ensures forall yy, xx :: 0 <= yy < final.Length0 && 0 <= xx < final.Length1 ==>
      final[yy, xx] == Overlaid(old(final[yy, xx]), parts, xx, yy)
  {
    for i := 0 to |results|
      invariant forall k :: 0 <= k < |results| ==> Holds(parts[k], left, results[k].0, results[k].1)
      invariant forall yy, xx :: 0 <= yy < final.Length0 && 0 <= xx < final.Length1 ==>
        final[yy, xx] == Overlaid(old(final[yy, xx]), parts[..i], xx, yy)
    {
      var (y, r) := results[i];
      MergeInto(final, r, left, y);
      assert parts[..i + 1][..i] == parts[..i];
    }
    assert parts[..|results|] == parts;
  }
}
