// The exact area resampling of the logo (resample, common/kernel/mklogo.ts). In units where the image is w * n across,
// an output pixel spans w units and a source pixel n of them, and their overlap is the weight of the one in the other.
module Resample {
  import opened Arithmetic
  import opened Bytes

  datatype Pixel = Pixel(r: byte, g: byte, b: byte)

  /* -------- One dimension -------- */

  // How much of [lo, hi) lies in [a, b).
  function Overlap(lo: int, hi: int, a: int, b: int): nat {
    if Min(hi, b) > Max(lo, a) then Min(hi, b) - Max(lo, a) else 0
  }

  lemma OverlapAdds(lo: int, hi: int, a: int, b: int, c: int)
    requires a <= b <= c && lo <= hi
    ensures Overlap(lo, hi, a, b) + Overlap(lo, hi, b, c) == Overlap(lo, hi, a, c)
  {
  }

  // The weight of source position s in output position d, of n outputs over w sources.
  function Weight(w: nat, n: nat, d: nat, s: nat): nat {
    Overlap(d * w, (d + 1) * w, s * n, (s + 1) * n)
  }

  // The source positions the code visits for an output position.
  function First(w: nat, n: nat, d: nat): nat
    requires n > 0
  {
    d * w / n
  }

  function Last(w: nat, n: nat, d: nat): nat
    requires n > 0
  {
    ((d + 1) * w + n - 1) / n
  }

  // They lie inside the source, and cover the output position.
  lemma VisitedCover(w: nat, n: nat, d: nat)
    requires d < n
    ensures First(w, n, d) <= Last(w, n, d) <= w
    ensures First(w, n, d) * n <= d * w <= (d + 1) * w <= Last(w, n, d) * n
  {
    DivBounds(d * w, n);
    DivBounds((d + 1) * w + n - 1, n);
    MulMonotone(d, d + 1, w);
    MulMonotone(d + 1, n, w);
    var first, last := First(w, n, d), Last(w, n, d);
    assert (w + 1) * n == w * n + n;
    if last > w {
      MulMonotone(w + 1, last, n);
    }
    if first > last {
      MulMonotone(last, first, n);
    }
  }

  // The weighted sum of the source values from position i up to position j.
  function Span(v: seq<int>, n: nat, d: nat, i: nat, j: nat): int
    requires i <= j <= |v|
    decreases j - i
  {
    if i == j then 0 else Span(v, n, d, i, j - 1) + v[j - 1] * Weight(|v|, n, d, j - 1)
  }

  // Over the positions visited.
  function Gather(v: seq<int>, n: nat, d: nat): int
    requires d < n
  {
    VisitedCover(|v|, n, d);
    Span(v, n, d, First(|v|, n, d), Last(|v|, n, d))
  }

  function Constant(c: int, w: nat): (v: seq<int>)
    ensures |v| == w && forall i | 0 <= i < w :: v[i] == c
  {
    seq(w, i => c)
  }

  lemma {:induction false} SpanOfConstant(v: seq<int>, c: int, n: nat, d: nat, i: nat, j: nat)
    requires i <= j <= |v| && forall k | i <= k < j :: v[k] == c
    ensures Span(v, n, d, i, j) == c * Overlap(d * |v|, (d + 1) * |v|, i * n, j * n)
    decreases j - i
  {
    hide Overlap;
    MulMonotone(d, d + 1, |v|);
    if i == j {
      NoOverlap(d * |v|, (d + 1) * |v|, i * n);
    } else {
      SpanOfConstant(v, c, n, d, i, j - 1);
      MulMonotone(i, j - 1, n);
      MulMonotone(j - 1, j, n);
      OverlapAdds(d * |v|, (d + 1) * |v|, i * n, (j - 1) * n, j * n);
      Distribute(c, Overlap(d * |v|, (d + 1) * |v|, i * n, (j - 1) * n), Weight(|v|, n, d, j - 1));
    }
  }

  lemma NoOverlap(lo: int, hi: int, a: int)
    ensures Overlap(lo, hi, a, a) == 0
  {
  }

  lemma Distribute(c: int, a: int, b: int)
    ensures c * (a + b) == c * a + c * b
  {
  }

  lemma FullOverlap(lo: int, hi: int, a: int, b: int)
    requires a <= lo <= hi <= b
    ensures Overlap(lo, hi, a, b) == hi - lo
  {
  }

  // The weights of an output position sum to the width of the source, whatever the two sizes.
  lemma GatherConstant(w: nat, c: int, n: nat, d: nat)
    requires d < n
    ensures Gather(Constant(c, w), n, d) == c * w
  {
    var v := Constant(c, w);
    VisitedCover(w, n, d);
    SpanOfConstant(v, c, n, d, First(w, n, d), Last(w, n, d));
    FullOverlap(d * w, (d + 1) * w, First(w, n, d) * n, Last(w, n, d) * n);
    assert (d + 1) * w - d * w == w;
  }

  // A value between two bounds wherever it has weight gives a sum between the bounds' own.
  lemma {:induction false} SpanBounds(v: seq<int>, n: nat, d: nat, i: nat, j: nat, lo: int, hi: int)
    requires i <= j <= |v| && forall k | i <= k < j && Weight(|v|, n, d, k) > 0 :: lo <= v[k] <= hi
    ensures Span(Constant(lo, |v|), n, d, i, j) <= Span(v, n, d, i, j) <= Span(Constant(hi, |v|), n, d, i, j)
    decreases j - i
  {
    hide Weight;
    if i < j {
      SpanBounds(v, n, d, i, j - 1, lo, hi);
      var weight := Weight(|v|, n, d, j - 1);
      if weight > 0 {
        MulMonotone(lo, v[j - 1], weight);
        MulMonotone(v[j - 1], hi, weight);
      }
    }
  }

  lemma GatherBounds(v: seq<int>, n: nat, d: nat, lo: int, hi: int)
    requires d < n && forall k | 0 <= k < |v| && Weight(|v|, n, d, k) > 0 :: lo <= v[k] <= hi
    ensures lo * |v| <= Gather(v, n, d) <= hi * |v|
  {
    hide Weight, Span, First, Last;
    VisitedCover(|v|, n, d);
    SpanBounds(v, n, d, First(|v|, n, d), Last(|v|, n, d), lo, hi);
    GatherConstant(|v|, lo, n, d);
    GatherConstant(|v|, hi, n, d);
  }

  /* -------- Conservation in one dimension -------- */

  function Sum(v: seq<int>): int {
    if v == [] then 0 else Sum(v[..|v| - 1]) + v[|v| - 1]
  }

  // What the first n' output positions take of source position s.
  function Taken(w: nat, n: nat, s: nat, n': nat): nat {
    if n' == 0 then 0 else Taken(w, n, s, n' - 1) + Weight(w, n, n' - 1, s)
  }

  lemma {:induction false} TakenIsOverlap(w: nat, n: nat, s: nat, n': nat)
    ensures Taken(w, n, s, n') == Overlap(s * n, (s + 1) * n, 0, n' * w)
  {
    hide Overlap;
    MulMonotone(s, s + 1, n);
    if n' == 0 {
      NoOverlap(s * n, (s + 1) * n, 0);
    } else {
      TakenIsOverlap(w, n, s, n' - 1);
      MulMonotone(n' - 1, n', w);
      MulMonotone(0, n' - 1, w);
      OverlapAdds(s * n, (s + 1) * n, 0, (n' - 1) * w, n' * w);
      OverlapCommutes((n' - 1) * w, n' * w, s * n, (s + 1) * n);
    }
  }

  lemma OverlapCommutes(a: int, b: int, c: int, d: int)
    ensures Overlap(a, b, c, d) == Overlap(c, d, a, b)
  {
  }

  // Each source position gives the same total over the outputs: as many units as there are outputs.
  lemma EachSourceCountsAlike(w: nat, n: nat, s: nat)
    requires s < w
    ensures Taken(w, n, s, n) == n
  {
    TakenIsOverlap(w, n, s, n);
    MulMonotone(0, s, n);
    MulMonotone(s, s + 1, n);
    MulMonotone(s + 1, w, n);
    FullOverlap(s * n, (s + 1) * n, 0, n * w);
    assert (s + 1) * n - s * n == n;
  }

  // The source positions outside those visited have no weight.
  lemma OutsideHasNoWeight(w: nat, n: nat, d: nat, s: nat)
    requires d < n && s < w && (s < First(w, n, d) || s >= Last(w, n, d))
    ensures Weight(w, n, d, s) == 0
  {
    VisitedCover(w, n, d);
    if s < First(w, n, d) {
      MulMonotone(s + 1, First(w, n, d), n);
    } else {
      MulMonotone(Last(w, n, d), s, n);
    }
  }

  lemma {:induction false} SpanSplits(v: seq<int>, n: nat, d: nat, i: nat, m: nat, j: nat)
    requires i <= m <= j <= |v|
    ensures Span(v, n, d, i, j) == Span(v, n, d, i, m) + Span(v, n, d, m, j)
    decreases j - m
  {
    hide Weight;
    if m < j {
      SpanSplits(v, n, d, i, m, j - 1);
    }
  }

  lemma {:induction false} SpanWithoutWeight(v: seq<int>, n: nat, d: nat, i: nat, j: nat)
    requires i <= j <= |v| && forall k | i <= k < j :: Weight(|v|, n, d, k) == 0
    ensures Span(v, n, d, i, j) == 0
    decreases j - i
  {
    hide Weight;
    if i < j {
      SpanWithoutWeight(v, n, d, i, j - 1);
    }
  }

  // Nothing is lost by visiting only some positions.
  lemma GatherIsSpan(v: seq<int>, n: nat, d: nat)
    requires d < n
    ensures Gather(v, n, d) == Span(v, n, d, 0, |v|)
  {
    hide Span, Weight, First, Last;
    VisitedCover(|v|, n, d);
    var first, last := First(|v|, n, d), Last(|v|, n, d);
    forall k: nat | k < |v| && (k < first || k >= last) ensures Weight(|v|, n, d, k) == 0 {
      OutsideHasNoWeight(|v|, n, d, k);
    }
    SpanWithoutWeight(v, n, d, 0, first);
    SpanWithoutWeight(v, n, d, last, |v|);
    SpanSplits(v, n, d, 0, first, |v|);
    SpanSplits(v, n, d, first, last, |v|);
  }

  // The sum of all the gathered values.
  function GatherAll(v: seq<int>, n: nat, n': nat): (r: seq<int>)
    requires n' <= n
    ensures |r| == n' && forall d | 0 <= d < n' :: r[d] == Gather(v, n, d)
  {
    seq(n', d requires 0 <= d < n' => Gather(v, n, d))
  }

  function TakenSum(v: seq<int>, n: nat, n': nat, j: nat): int
    requires j <= |v|
  {
    if j == 0 then 0 else TakenSum(v, n, n', j - 1) + v[j - 1] * Taken(|v|, n, j - 1, n')
  }

  lemma {:induction false} TakenSumStep(v: seq<int>, n: nat, n': nat, j: nat)
    requires n' > 0 && j <= |v|
    ensures TakenSum(v, n, n', j) == TakenSum(v, n, n' - 1, j) + Span(v, n, n' - 1, 0, j)
  {
    hide Weight;
    if j > 0 {
      TakenSumStep(v, n, n', j - 1);
      Distribute(v[j - 1], Taken(|v|, n, j - 1, n' - 1), Weight(|v|, n, n' - 1, j - 1));
    }
  }

  lemma {:induction false} GatheredSum(v: seq<int>, n: nat, n': nat)
    requires n' <= n
    ensures Sum(GatherAll(v, n, n')) == TakenSum(v, n, n', |v|)
    decreases n'
  {
    hide Gather;
    if n' == 0 {
      NothingTaken(v, n, |v|);
    } else {
      GatheredSum(v, n, n' - 1);
      assert GatherAll(v, n, n')[..n' - 1] == GatherAll(v, n, n' - 1);
      TakenSumStep(v, n, n', |v|);
      GatherIsSpan(v, n, n' - 1);
    }
  }

  lemma {:induction false} NothingTaken(v: seq<int>, n: nat, j: nat)
    requires j <= |v|
    ensures TakenSum(v, n, 0, j) == 0
  {
    if j > 0 {
      NothingTaken(v, n, j - 1);
    }
  }

  lemma {:induction false} AllTaken(v: seq<int>, n: nat, j: nat)
    requires j <= |v|
    ensures TakenSum(v, n, n, j) == n * Sum(v[..j])
  {
    hide Taken;
    if j > 0 {
      AllTaken(v, n, j - 1);
      EachSourceCountsAlike(|v|, n, j - 1);
      assert v[..j][..j - 1] == v[..j - 1];
      Distribute(n, Sum(v[..j - 1]), v[j - 1]);
    }
  }

  // The outputs together hold n times what the sources do.
  lemma GatherConserves(v: seq<int>, n: nat)
    ensures Sum(GatherAll(v, n, n)) == n * Sum(v)
  {
    GatheredSum(v, n, n);
    AllTaken(v, n, |v|);
    assert v[..|v|] == v;
  }

  /* -------- Two dimensions -------- */

  datatype Channel = Red | Green | Blue

  function Of(p: Pixel, c: Channel): byte {
    match c
    case Red => p.r
    case Green => p.g
    case Blue => p.b
  }

  function Values(row: seq<Pixel>, c: Channel): (v: seq<int>)
    ensures |v| == |row| && forall i | 0 <= i < |row| :: v[i] == Of(row[i], c) as int
  {
    seq(|row|, i requires 0 <= i < |row| => Of(row[i], c) as int)
  }

  // Each source row gathered at one output column.
  function Columns(src: seq<seq<Pixel>>, w: nat, c: Channel, n: nat, dx: nat): (v: seq<int>)
    requires dx < n && forall y | 0 <= y < |src| :: |src[y]| == w
    ensures |v| == |src| && forall y | 0 <= y < |src| :: v[y] == Gather(Values(src[y], c), n, dx)
  {
    seq(|src|, y requires 0 <= y < |src| => Gather(Values(src[y], c), n, dx))
  }

  // A channel's weighted sum at an output pixel.
  function Accumulated(src: seq<seq<Pixel>>, w: nat, c: Channel, dw: nat, dh: nat, dx: nat, dy: nat): int
    requires dx < dw && dy < dh && forall y | 0 <= y < |src| :: |src[y]| == w
  {
    Gather(Columns(src, w, c, dw, dx), dh, dy)
  }

  // The rounded mean.
  function Mean(acc: int, area: int): int
    requires area > 0
  {
    (acc + area / 2) / area
  }

  // It is the nearest number, the upper of two as near.
  lemma MeanIsNearest(acc: int, area: int)
    requires area > 0
    ensures -area < 2 * (Mean(acc, area) * area - acc) <= area
  {
    var m, x := Mean(acc, area), acc + area / 2;
    assert m * area <= x < m * area + area;
  }

  lemma MeanBetween(acc: int, area: int, lo: int, hi: int)
    requires area > 0 && lo * area <= acc <= hi * area
    ensures lo <= Mean(acc, area) <= hi
  {
    var m, x := Mean(acc, area), acc + area / 2;
    assert m * area <= x < m * area + area;
    assert (m + 1) * area == m * area + area && (hi + 1) * area == hi * area + area;
    if m < lo {
      MulMonotone(m + 1, lo, area);
    }
    if m > hi {
      MulMonotone(hi + 1, m, area);
    }
  }

  // The source pixels an output pixel covers.
  predicate Covers(w: nat, h: nat, dw: nat, dh: nat, dx: nat, dy: nat, sx: nat, sy: nat) {
    Weight(w, dw, dx, sx) > 0 && Weight(h, dh, dy, sy) > 0
  }

  lemma AccumulatedBounds(src: seq<seq<Pixel>>, w: nat, c: Channel, dw: nat, dh: nat, dx: nat, dy: nat, lo: int, hi: int)
    requires dx < dw && dy < dh && forall y | 0 <= y < |src| :: |src[y]| == w
    requires forall sx, sy | 0 <= sy < |src| && 0 <= sx < w && Covers(w, |src|, dw, dh, dx, dy, sx, sy) :: lo <= Of(src[sy][sx], c) as int <= hi
    ensures lo * (w * |src|) <= Accumulated(src, w, c, dw, dh, dx, dy) <= hi * (w * |src|)
  {
    hide Gather, Weight, Of;
    var columns := Columns(src, w, c, dw, dx);
    forall sy: nat | sy < |src| && Weight(|src|, dh, dy, sy) > 0 ensures lo * w <= columns[sy] <= hi * w {
      forall k: nat | k < w && Weight(w, dw, dx, k) > 0 ensures lo <= Values(src[sy], c)[k] <= hi {
        assert Covers(w, |src|, dw, dh, dx, dy, k, sy);
      }
      GatherBounds(Values(src[sy], c), dw, dx, lo, hi);
    }
    GatherBounds(columns, dh, dy, lo * w, hi * w);
    assert (lo * w) * |src| == lo * (w * |src|) && (hi * w) * |src| == hi * (w * |src|);
  }

  function Resampled(src: seq<seq<Pixel>>, w: nat, dw: nat, dh: nat, dx: nat, dy: nat): (p: Pixel)
    requires w > 0 && |src| > 0 && dx < dw && dy < dh && forall y | 0 <= y < |src| :: |src[y]| == w
  {
    AccumulatedInRange(src, w, Red, dw, dh, dx, dy);
    AccumulatedInRange(src, w, Green, dw, dh, dx, dy);
    AccumulatedInRange(src, w, Blue, dw, dh, dx, dy);
    var area := w * |src|;
    Pixel(Mean(Accumulated(src, w, Red, dw, dh, dx, dy), area), Mean(Accumulated(src, w, Green, dw, dh, dx, dy), area),
          Mean(Accumulated(src, w, Blue, dw, dh, dx, dy), area))
  }

  // Each channel of the pixel is the number nearest to the weighted mean.
  lemma ResampledIsNearest(src: seq<seq<Pixel>>, w: nat, c: Channel, dw: nat, dh: nat, dx: nat, dy: nat)
    requires w > 0 && |src| > 0 && dx < dw && dy < dh && forall y | 0 <= y < |src| :: |src[y]| == w
    ensures var area, p := w * |src|, Of(Resampled(src, w, dw, dh, dx, dy), c) as int;
            -area < 2 * (p * area - Accumulated(src, w, c, dw, dh, dx, dy)) <= area
  {
    AccumulatedInRange(src, w, c, dw, dh, dx, dy);
    assert Of(Resampled(src, w, dw, dh, dx, dy), c) as int == Mean(Accumulated(src, w, c, dw, dh, dx, dy), w * |src|) by {
      hide Accumulated, Mean;
    }
    hide *;
    MeanIsNearest(Accumulated(src, w, c, dw, dh, dx, dy), w * |src|);
  }

  lemma AccumulatedInRange(src: seq<seq<Pixel>>, w: nat, c: Channel, dw: nat, dh: nat, dx: nat, dy: nat)
    requires w > 0 && |src| > 0 && dx < dw && dy < dh && forall y | 0 <= y < |src| :: |src[y]| == w
    ensures w * |src| > 0
    ensures 0 <= Mean(Accumulated(src, w, c, dw, dh, dx, dy), w * |src|) <= 255
  {
    hide Accumulated, Covers;
    AccumulatedBounds(src, w, c, dw, dh, dx, dy, 0, 255);
    MulMonotone(1, w, |src|);
    MeanBetween(Accumulated(src, w, c, dw, dh, dx, dy), w * |src|, 0, 255);
  }

  // Every channel of an output pixel lies between the least and the greatest of the source pixels it covers.
  lemma ResampledBetween(src: seq<seq<Pixel>>, w: nat, dw: nat, dh: nat, dx: nat, dy: nat, c: Channel, lo: int, hi: int)
    requires w > 0 && |src| > 0 && dx < dw && dy < dh && forall y | 0 <= y < |src| :: |src[y]| == w
    requires forall sx, sy | 0 <= sy < |src| && 0 <= sx < w && Covers(w, |src|, dw, dh, dx, dy, sx, sy) :: lo <= Of(src[sy][sx], c) as int <= hi
    ensures lo <= Of(Resampled(src, w, dw, dh, dx, dy), c) as int <= hi
  {
    hide Accumulated, Covers;
    AccumulatedBounds(src, w, c, dw, dh, dx, dy, lo, hi);
    AccumulatedInRange(src, w, c, dw, dh, dx, dy);
    MeanBetween(Accumulated(src, w, c, dw, dh, dx, dy), w * |src|, lo, hi);
    hide Mean;
  }

  // At equal sizes an output pixel covers its own source pixel and no other.
  lemma CoversItself(n: nat, d: nat, s: nat)
    requires d < n && s < n
    ensures Weight(n, n, d, s) == if s == d then n else 0
  {
    if s < d {
      MulMonotone(s + 1, d, n);
    } else if s > d {
      MulMonotone(d + 1, s, n);
    } else {
      assert (d + 1) * n - d * n == n;
    }
  }

  lemma EqualSizesAreIdentity(src: seq<seq<Pixel>>, w: nat, dx: nat, dy: nat)
    requires w > 0 && dx < w && dy < |src| && forall y | 0 <= y < |src| :: |src[y]| == w
    ensures Resampled(src, w, w, |src|, dx, dy) == src[dy][dx]
  {
    hide Resampled, Weight;
    forall sx: nat, sy: nat | sy < |src| && sx < w && Covers(w, |src|, w, |src|, dx, dy, sx, sy) ensures sx == dx && sy == dy {
      CoversItself(w, dx, sx);
      CoversItself(|src|, dy, sy);
    }
    forall c: Channel ensures Of(Resampled(src, w, w, |src|, dx, dy), c) == Of(src[dy][dx], c) {
      var x := Of(src[dy][dx], c) as int;
      ResampledBetween(src, w, w, |src|, dx, dy, c, x, x);
    }
    SameChannels(Resampled(src, w, w, |src|, dx, dy), src[dy][dx]);
  }

  lemma SameChannels(p: Pixel, q: Pixel)
    requires forall c: Channel :: Of(p, c) == Of(q, c)
    ensures p == q
  {
    assert Of(p, Red) == Of(q, Red) && Of(p, Green) == Of(q, Green) && Of(p, Blue) == Of(q, Blue);
  }

  /* -------- Conservation over the image -------- */

  // A channel summed over the whole image, and its weighted sums over a whole output row, and over the whole output.
  function Total(src: seq<seq<Pixel>>, c: Channel): int {
    if src == [] then 0 else Total(src[..|src| - 1], c) + Sum(Values(src[|src| - 1], c))
  }

  function RowAccumulated(src: seq<seq<Pixel>>, w: nat, c: Channel, dw: nat, dh: nat, dx: nat): int
    requires dx < dw && forall y | 0 <= y < |src| :: |src[y]| == w
  {
    Sum(GatherAll(Columns(src, w, c, dw, dx), dh, dh))
  }

  function AllAccumulated(src: seq<seq<Pixel>>, w: nat, c: Channel, dw: nat, dh: nat, n: nat): int
    requires n <= dw && forall y | 0 <= y < |src| :: |src[y]| == w
  {
    if n == 0 then 0 else AllAccumulated(src, w, c, dw, dh, n - 1) + RowAccumulated(src, w, c, dw, dh, n - 1)
  }

  // The columns gathered so far, summed.
  function ColumnSums(src: seq<seq<Pixel>>, w: nat, c: Channel, dw: nat, n: nat): int
    requires n <= dw && forall y | 0 <= y < |src| :: |src[y]| == w
  {
    if n == 0 then 0 else ColumnSums(src, w, c, dw, n - 1) + Sum(Columns(src, w, c, dw, n - 1))
  }

  lemma {:induction false} AllAccumulatedIs(src: seq<seq<Pixel>>, w: nat, c: Channel, dw: nat, dh: nat, n: nat)
    requires n <= dw && forall y | 0 <= y < |src| :: |src[y]| == w
    ensures AllAccumulated(src, w, c, dw, dh, n) == dh * ColumnSums(src, w, c, dw, n)
  {
    hide Columns, GatherAll, Sum;
    if n > 0 {
      AllAccumulatedIs(src, w, c, dw, dh, n - 1);
      GatherConserves(Columns(src, w, c, dw, n - 1), dh);
      Distribute(dh, ColumnSums(src, w, c, dw, n - 1), Sum(Columns(src, w, c, dw, n - 1)));
    }
  }

  // One row's part of the column sums.
  lemma {:induction false} ColumnSumsSnoc(src: seq<seq<Pixel>>, w: nat, c: Channel, dw: nat, n: nat)
    requires src != [] && n <= dw && forall y | 0 <= y < |src| :: |src[y]| == w
    ensures ColumnSums(src, w, c, dw, n)
         == ColumnSums(src[..|src| - 1], w, c, dw, n) + Sum(GatherAll(Values(src[|src| - 1], c), dw, n))
  {
    hide Gather, Values;
    var before, v := src[..|src| - 1], Values(src[|src| - 1], c);
    if n > 0 {
      ColumnSumsSnoc(src, w, c, dw, n - 1);
      assert GatherAll(v, dw, n)[..n - 1] == GatherAll(v, dw, n - 1);
      assert Columns(src, w, c, dw, n - 1)[..|src| - 1] == Columns(before, w, c, dw, n - 1);
    }
  }

  lemma {:induction false} ColumnSumsTotal(src: seq<seq<Pixel>>, w: nat, c: Channel, dw: nat)
    requires forall y | 0 <= y < |src| :: |src[y]| == w
    ensures ColumnSums(src, w, c, dw, dw) == dw * Total(src, c)
    decreases |src|
  {
    hide Gather, Values, GatherAll, Columns, Sum;
    if src == [] {
      NoColumns(w, c, dw, dw);
    } else {
      var before, v := src[..|src| - 1], Values(src[|src| - 1], c);
      ColumnSumsSnoc(src, w, c, dw, dw);
      ColumnSumsTotal(before, w, c, dw);
      GatherConserves(v, dw);
      Distribute(dw, Total(before, c), Sum(v));
      hide ColumnSums;
    }
  }

  lemma {:induction false} NoColumns(w: nat, c: Channel, dw: nat, n: nat)
    requires n <= dw
    ensures ColumnSums([], w, c, dw, n) == 0
  {
    if n > 0 {
      NoColumns(w, c, dw, n - 1);
    }
  }

  // Over the whole output each channel's weighted sums hold exactly dw * dh times the source's total: every source pixel
  // contributes dw * dh units, as every output pixel takes w * h of them.
  lemma ResampleConserves(src: seq<seq<Pixel>>, w: nat, c: Channel, dw: nat, dh: nat)
    requires forall y | 0 <= y < |src| :: |src[y]| == w
    ensures AllAccumulated(src, w, c, dw, dh, dw) == dw * dh * Total(src, c)
  {
    AllAccumulatedIs(src, w, c, dw, dh, dw);
    ColumnSumsTotal(src, w, c, dw);
    hide *;
    Reorder(dh, dw, Total(src, c));
  }

  lemma Reorder(a: int, b: int, c: int)
    ensures a * (b * c) == b * a * c
  {
  }

  // What the outputs of column dx and the first m rows take of a source pixel, and what those of the first n columns do.
  function ColumnWeight(w: nat, h: nat, dw: nat, dh: nat, sx: nat, sy: nat, dx: nat, m: nat): nat {
    if m == 0 then 0 else ColumnWeight(w, h, dw, dh, sx, sy, dx, m - 1) + Weight(w, dw, dx, sx) * Weight(h, dh, m - 1, sy)
  }

  function TotalWeight(w: nat, h: nat, dw: nat, dh: nat, sx: nat, sy: nat, n: nat): nat {
    if n == 0 then 0 else TotalWeight(w, h, dw, dh, sx, sy, n - 1) + ColumnWeight(w, h, dw, dh, sx, sy, n - 1, dh)
  }

  lemma {:induction false} ColumnWeightIs(w: nat, h: nat, dw: nat, dh: nat, sx: nat, sy: nat, dx: nat, m: nat)
    ensures ColumnWeight(w, h, dw, dh, sx, sy, dx, m) == Weight(w, dw, dx, sx) * Taken(h, dh, sy, m)
  {
    hide Weight;
    if m > 0 {
      ColumnWeightIs(w, h, dw, dh, sx, sy, dx, m - 1);
      Distribute(Weight(w, dw, dx, sx), Taken(h, dh, sy, m - 1), Weight(h, dh, m - 1, sy));
    }
  }

  // Each source pixel weighs as many units over the whole output as the output has pixels.
  lemma {:induction false} EachPixelCountsAlike(w: nat, h: nat, dw: nat, dh: nat, sx: nat, sy: nat, n: nat)
    requires sx < w && sy < h
    ensures TotalWeight(w, h, dw, dh, sx, sy, n) == Taken(w, dw, sx, n) * dh
    ensures n == dw ==> TotalWeight(w, h, dw, dh, sx, sy, n) == dw * dh
  {
    hide Weight, ColumnWeight;
    EachSourceCountsAlike(h, dh, sy);
    EachSourceCountsAlike(w, dw, sx);
    if n > 0 {
      EachPixelCountsAlike(w, h, dw, dh, sx, sy, n - 1);
      ColumnWeightIs(w, h, dw, dh, sx, sy, n - 1, dh);
      var before, weight := Taken(w, dw, sx, n - 1), Weight(w, dw, n - 1, sx);
      assert TotalWeight(w, h, dw, dh, sx, sy, n) == before * dh + weight * dh;
      assert Taken(w, dw, sx, n) == before + weight;
      hide *;
      DistributeLeft(before, weight, dh);
    }
  }

  lemma DistributeLeft(a: int, b: int, c: int)
    ensures (a + b) * c == a * c + b * c
  {
  }

  /* -------- The loops -------- */

  datatype Sums = Sums(r: int, g: int, b: int, area: int)

  function Add(s: Sums, p: Pixel, a: int): Sums {
    Sums(s.r + p.r as int * a, s.g + p.g as int * a, s.b + p.b as int * a, s.area + a)
  }

  // What one source row adds: its gathered values, wy times.
  function RowSums(row: seq<Pixel>, n: nat, d: nat, wy: int, before: Sums, i: nat, j: nat): Sums
    requires i <= j <= |row|
  {
    Sums(before.r + wy * Span(Values(row, Red), n, d, i, j), before.g + wy * Span(Values(row, Green), n, d, i, j),
         before.b + wy * Span(Values(row, Blue), n, d, i, j), before.area + wy * Span(Constant(1, |row|), n, d, i, j))
  }

  lemma RowSumsStep(row: seq<Pixel>, n: nat, d: nat, wy: int, before: Sums, i: nat, j: nat)
    requires i <= j < |row|
    ensures RowSums(row, n, d, wy, before, i, j + 1) == Add(RowSums(row, n, d, wy, before, i, j), row[j], Weight(|row|, n, d, j) * wy)
  {
    hide Weight;
    var x := Weight(|row|, n, d, j);
    SpanStep(Values(row, Red), n, d, wy, i, j);
    SpanStep(Values(row, Green), n, d, wy, i, j);
    SpanStep(Values(row, Blue), n, d, wy, i, j);
    SpanStep(Constant(1, |row|), n, d, wy, i, j);
    hide Span;
  }

  lemma SpanStep(v: seq<int>, n: nat, d: nat, wy: int, i: nat, j: nat)
    requires i <= j < |v|
    ensures wy * Span(v, n, d, i, j + 1) == wy * Span(v, n, d, i, j) + v[j] * (Weight(|v|, n, d, j) * wy)
  {
    hide Weight;
    Distribute(wy, Span(v, n, d, i, j), v[j] * Weight(|v|, n, d, j));
    Reassociate(wy, v[j], Weight(|v|, n, d, j));
  }

  lemma Reassociate(a: int, b: int, c: int)
    ensures a * (b * c) == b * (c * a)
  {
  }

  // The code's expression for an overlap, positive exactly when there is weight.
  lemma WeightIs(w: nat, n: nat, d: nat, s: nat, x: int)
    requires x == Min((d + 1) * w, (s + 1) * n) - Max(d * w, s * n)
    ensures Weight(w, n, d, s) == if x > 0 then x else 0
  {
  }

  method AddRow(row: seq<Pixel>, dw: nat, dx: nat, wy: int, before: Sums) returns (sums: Sums)
    requires dx < dw
    ensures First(|row|, dw, dx) <= Last(|row|, dw, dx) <= |row|
    ensures sums == RowSums(row, dw, dx, wy, before, First(|row|, dw, dx), Last(|row|, dw, dx))
  {
    hide Weight, RowSums, Add;
    var w := |row|;
    VisitedCover(w, dw, dx);
    var x0n, x1n := dx * w, (dx + 1) * w;
    sums := before;
    var first := x0n / dw;
    NothingAdded(row, dw, dx, wy, before, first);
    for sx := first to (x1n + dw - 1) / dw
      invariant sums == RowSums(row, dw, dx, wy, before, first, sx)
    {
      var wx := Min(x1n, (sx + 1) * dw) - Max(x0n, sx * dw);
      WeightIs(w, dw, dx, sx, wx);
      RowSumsStep(row, dw, dx, wy, before, first, sx);
      AddNothing(sums, row[sx], wy);
      if wx <= 0 {
        continue;
      }
      sums := Add(sums, row[sx], wx * wy);
    }
  }

  lemma AddNothing(s: Sums, p: Pixel, wy: int)
    ensures Add(s, p, 0 * wy) == s
  {
  }

  lemma NothingAdded(row: seq<Pixel>, n: nat, d: nat, wy: int, before: Sums, i: nat)
    requires i <= |row|
    ensures RowSums(row, n, d, wy, before, i, i) == before
  {
  }

  // The sums over source rows i up to j.
  function AreaSums(src: seq<seq<Pixel>>, w: nat, dw: nat, dh: nat, dx: nat, dy: nat, i: nat, j: nat): Sums
    requires dx < dw && i <= j <= |src| && forall y | 0 <= y < |src| :: |src[y]| == w
  {
    Sums(Span(Columns(src, w, Red, dw, dx), dh, dy, i, j), Span(Columns(src, w, Green, dw, dx), dh, dy, i, j),
         Span(Columns(src, w, Blue, dw, dx), dh, dy, i, j), Span(Constant(w, |src|), dh, dy, i, j))
  }

  lemma AreaSumsStep(src: seq<seq<Pixel>>, w: nat, dw: nat, dh: nat, dx: nat, dy: nat, i: nat, j: nat, wy: int)
    requires dx < dw && i <= j < |src| && forall y | 0 <= y < |src| :: |src[y]| == w
    requires wy == Weight(|src|, dh, dy, j)
    requires First(w, dw, dx) <= Last(w, dw, dx) <= w
    ensures AreaSums(src, w, dw, dh, dx, dy, i, j + 1)
         == RowSums(src[j], dw, dx, wy, AreaSums(src, w, dw, dh, dx, dy, i, j), First(w, dw, dx), Last(w, dw, dx))
  {
    hide Weight, First, Last;
    GatherConstant(w, 1, dw, dx);
    hide Constant;
    ColumnStep(src, w, Red, dw, dh, dx, dy, i, j);
    ColumnStep(src, w, Green, dw, dh, dx, dy, i, j);
    ColumnStep(src, w, Blue, dw, dh, dx, dy, i, j);
    AreaStep(w, |src|, dh, dy, i, j);
    hide Span;
  }

  lemma ColumnStep(src: seq<seq<Pixel>>, w: nat, c: Channel, dw: nat, dh: nat, dx: nat, dy: nat, i: nat, j: nat)
    requires dx < dw && i <= j < |src| && forall y | 0 <= y < |src| :: |src[y]| == w
    ensures Span(Columns(src, w, c, dw, dx), dh, dy, i, j + 1)
         == Span(Columns(src, w, c, dw, dx), dh, dy, i, j) + Weight(|src|, dh, dy, j) * Gather(Values(src[j], c), dw, dx)
  {
    hide Weight, Gather, Values;
  }

  lemma AreaStep(w: nat, h: nat, dh: nat, dy: nat, i: nat, j: nat)
    requires i <= j < h
    ensures Span(Constant(w, h), dh, dy, i, j + 1) == Span(Constant(w, h), dh, dy, i, j) + Weight(h, dh, dy, j) * w
  {
    hide Weight;
  }

  method PixelAt(src: seq<seq<Pixel>>, w: nat, dw: nat, dh: nat, dx: nat, dy: nat) returns (p: Pixel)
    requires w > 0 && |src| > 0 && dx < dw && dy < dh && forall y | 0 <= y < |src| :: |src[y]| == w
    ensures p == Resampled(src, w, dw, dh, dx, dy)
  {
    hide Weight, AreaSums, RowSums, Resampled;
    var h := |src|;
    VisitedCover(h, dh, dy);
    var y0n, y1n := dy * h, (dy + 1) * h;
    var first := y0n / dh;
    var sums := Sums(0, 0, 0, 0);
    NothingSummed(src, w, dw, dh, dx, dy, first);
    for sy := first to (y1n + dh - 1) / dh
      invariant sums == AreaSums(src, w, dw, dh, dx, dy, first, sy)
    {
      var wy := Min(y1n, (sy + 1) * dh) - Max(y0n, sy * dh);
      WeightIs(h, dh, dy, sy, wy);
      VisitedCover(w, dw, dx);
      AreaSumsStep(src, w, dw, dh, dx, dy, first, sy, Weight(h, dh, dy, sy));
      NothingInRow(src[sy], dw, dx, sums);
      if wy <= 0 {
        continue;
      }
      sums := AddRow(src[sy], dw, dx, wy, sums);
    }
    SumsAreResampled(src, w, dw, dh, dx, dy);
    var area := sums.area;
    p := Pixel((sums.r + area / 2) / area, (sums.g + area / 2) / area, (sums.b + area / 2) / area);
  }

  lemma NothingSummed(src: seq<seq<Pixel>>, w: nat, dw: nat, dh: nat, dx: nat, dy: nat, i: nat)
    requires dx < dw && i <= |src| && forall y | 0 <= y < |src| :: |src[y]| == w
    ensures AreaSums(src, w, dw, dh, dx, dy, i, i) == Sums(0, 0, 0, 0)
  {
  }

  lemma NothingInRow(row: seq<Pixel>, n: nat, d: nat, before: Sums)
    requires n > 0 && First(|row|, n, d) <= Last(|row|, n, d) <= |row|
    ensures RowSums(row, n, d, 0, before, First(|row|, n, d), Last(|row|, n, d)) == before
  {
    hide Span, First, Last;
  }

  // The area is the whole source's, so nothing is divided by zero, and the quotients are channels.
  lemma SumsAreResampled(src: seq<seq<Pixel>>, w: nat, dw: nat, dh: nat, dx: nat, dy: nat)
    requires w > 0 && |src| > 0 && dx < dw && dy < dh && forall y | 0 <= y < |src| :: |src[y]| == w
    ensures First(|src|, dh, dy) <= Last(|src|, dh, dy) <= |src|
    ensures var s := AreaSums(src, w, dw, dh, dx, dy, First(|src|, dh, dy), Last(|src|, dh, dy));
      && s.area == w * |src| > 0
      && var p := Resampled(src, w, dw, dh, dx, dy);
      && Mean(s.r, s.area) == p.r as int && Mean(s.g, s.area) == p.g as int && Mean(s.b, s.area) == p.b as int
  {
    hide Span, First, Last, Columns, Mean;
    VisitedCover(|src|, dh, dy);
    GatherConstant(|src|, w, dh, dy);
    MulMonotone(1, w, |src|);
  }

  method Resample(src: seq<seq<Pixel>>, w: nat, dw: nat, dh: nat) returns (rows: seq<seq<Pixel>>)
    requires w > 0 && |src| > 0 && forall y | 0 <= y < |src| :: |src[y]| == w
    ensures |rows| == dh && forall dy | 0 <= dy < dh :: |rows[dy]| == dw
    ensures forall dx, dy | 0 <= dy < dh && 0 <= dx < dw :: rows[dy][dx] == Resampled(src, w, dw, dh, dx, dy)
  {
    hide Resampled;
    rows := [];
    for dy := 0 to dh
      invariant |rows| == dy && forall y | 0 <= y < dy :: |rows[y]| == dw
      invariant forall x, y | 0 <= y < dy && 0 <= x < dw :: rows[y][x] == Resampled(src, w, dw, dh, x, y)
    {
      var row: seq<Pixel> := [];
      for dx := 0 to dw
        invariant |row| == dx && forall x | 0 <= x < dx :: row[x] == Resampled(src, w, dw, dh, x, dy)
      {
        var p := PixelAt(src, w, dw, dh, dx, dy);
        row := row + [p];
      }
      rows := rows + [row];
    }
  }
}
