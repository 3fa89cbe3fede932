// quantise as a whole (common/kernel/mklogo.ts): the histogram, the boxes, and the mapping of every pixel to the mean of
// its box; and what main relies on, that no more colours come out than were asked for.
module Palette {
  import opened Arithmetic
  import opened Wrappers
  import opened Bytes
  import opened Resample
  import opened MedianCut

  const MAX_LINUX_LOGO_COLORS := 224

  /* -------- A box's colour -------- */

  // A channel summed over a box's pixels.
  function Weighted(hist: Histogram, box: seq<Pixel>, c: Channel): nat {
    if box == [] then 0 else Weighted(hist, box[..|box| - 1], c) + (Of(box[|box| - 1], c) as int) * Count(hist, box[|box| - 1])
  }

  lemma {:induction false} WeightedBetween(hist: Histogram, box: seq<Pixel>, c: Channel, lo: int, hi: int)
    requires forall i | 0 <= i < |box| :: lo <= Of(box[i], c) as int <= hi
    ensures lo * Population(hist, box) <= Weighted(hist, box, c) <= hi * Population(hist, box)
  {
    hide Of, Count;
    if box != [] {
      var front, p := box[..|box| - 1], box[|box| - 1];
      WeightedBetween(hist, front, c, lo, hi);
      BetweenStep(lo, hi, Of(p, c) as int, Count(hist, p), Population(hist, front), Weighted(hist, front, c));
    }
  }

  lemma BetweenStep(lo: int, hi: int, x: int, n: nat, population: int, weighted: int)
    requires lo <= x <= hi && lo * population <= weighted <= hi * population
    ensures lo * (population + n) <= weighted + x * n <= hi * (population + n)
  {
    MulMonotone(lo, x, n);
    MulMonotone(x, hi, n);
    Distribute(lo, population, n);
    Distribute(hi, population, n);
  }

  lemma QuotientBetween(w: nat, n: nat, lo: int, hi: int)
    requires n > 0 && lo * n <= w <= hi * n
    ensures lo <= w / n <= hi
  {
    DivBounds(w, n);
    assert (w / n + 1) * n == (w / n) * n + n && (hi + 1) * n == hi * n + n;
    if w / n < lo {
      MulMonotone(w / n + 1, lo, n);
    }
    if w / n > hi {
      MulMonotone(hi + 1, w / n, n);
    }
  }

  // The mean of a box is within its extent in each channel.
  lemma MeanInBox(hist: Histogram, box: seq<Pixel>, c: Channel)
    requires Population(hist, box) > 0
    ensures Lo(box, c) <= Weighted(hist, box, c) / Population(hist, box) <= Hi(box, c)
  {
    WeightedBetween(hist, box, c, Lo(box, c), Hi(box, c));
    QuotientBetween(Weighted(hist, box, c), Population(hist, box), Lo(box, c), Hi(box, c));
  }

  function MeanOf(hist: Histogram, box: seq<Pixel>, c: Channel): (m: byte)
    requires Population(hist, box) > 0
  {
    MeanInBox(hist, box, c);
    Weighted(hist, box, c) / Population(hist, box)
  }

  function Representative(hist: Histogram, box: seq<Pixel>): (p: Pixel)
    requires Population(hist, box) > 0
  {
    Pixel(MeanOf(hist, box, Red), MeanOf(hist, box, Green), MeanOf(hist, box, Blue))
  }

  // It is the mean over the box's pixels, each of its colours as often as the image has it, rounded down in each channel.
  lemma RepresentativeIsMean(hist: Histogram, box: seq<Pixel>, c: Channel)
    requires Population(hist, box) > 0
    ensures var n, p := Population(hist, box), Of(Representative(hist, box), c) as int;
            p * n <= Weighted(hist, box, c) < p * n + n
  {
    assert Of(Representative(hist, box), c) as int == Weighted(hist, box, c) / Population(hist, box);
    hide *;
    DivBounds(Weighted(hist, box, c), Population(hist, box));
  }

  // In every channel the pixel is within the box's extent.
  ghost predicate InExtent(p: Pixel, box: seq<Pixel>) {
    forall c: Channel :: Lo(box, c) <= Of(p, c) as int <= Hi(box, c)
  }

  lemma RepresentativeInExtent(hist: Histogram, box: seq<Pixel>)
    requires Population(hist, box) > 0
    ensures InExtent(Representative(hist, box), box)
  {
    hide Lo, Hi, Population, Weighted;
    forall c: Channel ensures Lo(box, c) <= Of(Representative(hist, box), c) as int <= Hi(box, c) {
      MeanInBox(hist, box, c);
    }
  }

  /* -------- The mapping -------- */

  // Every box holds a pixel.
  ghost predicate Populated(hist: Histogram, boxes: seq<seq<Pixel>>) {
    forall i | 0 <= i < |boxes| :: Population(hist, boxes[i]) > 0
  }

  // The mapping after the first n boxes.
  function Mapping(hist: Histogram, boxes: seq<seq<Pixel>>, n: nat): map<Pixel, Pixel>
    requires n <= |boxes| && Populated(hist, boxes)
  {
    if n == 0 then map[] else
      Assign(Mapping(hist, boxes, n - 1), boxes[n - 1], Representative(hist, boxes[n - 1]))
  }

  // mapping.set(c, rep) for each colour of a box.
  function Assign(mapping: map<Pixel, Pixel>, box: seq<Pixel>, rep: Pixel): (r: map<Pixel, Pixel>)
    ensures forall p | p in box :: p in r && r[p] == rep
    ensures forall p | p !in box :: (p in r <==> p in mapping) && (p in r ==> r[p] == mapping[p])
  {
    if box == [] then mapping else Assign(mapping, box[..|box| - 1], rep)[box[|box| - 1] := rep]
  }

  lemma {:induction false} InFlat(boxes: seq<seq<Pixel>>, p: Pixel)
    ensures p in Flat(boxes) <==> exists i | 0 <= i < |boxes| :: p in boxes[i]
  {
    if boxes != [] {
      var front := boxes[..|boxes| - 1];
      InFlat(front, p);
      if i :| 0 <= i < |front| && p in front[i] {
        assert p in boxes[i];
      }
    }
  }

  // Boxes of distinct colours hold each colour once.
  lemma {:induction false} OneBox(boxes: seq<seq<Pixel>>, p: Pixel, i: nat, j: nat)
    requires multiset(Flat(boxes))[p] <= 1 && i < |boxes| && j < |boxes| && p in boxes[i] && p in boxes[j]
    ensures i == j
  {
    if boxes != [] {
      var front, last := boxes[..|boxes| - 1], boxes[|boxes| - 1];
      InFlat(front, p);
      assert p in multiset(last) <==> p in last;
      assert multiset(Flat(front) + last) == multiset(Flat(front)) + multiset(last);
      if i < |front| && j < |front| {
        OneBox(front, p, i, j);
      } else {
        InBoth(front, p, i, j);
      }
    }
  }

  lemma InBoth(front: seq<seq<Pixel>>, p: Pixel, i: nat, j: nat)
    ensures i < |front| && p in front[i] ==> exists k | 0 <= k < |front| :: p in front[k]
    ensures j < |front| && p in front[j] ==> exists k | 0 <= k < |front| :: p in front[k]
  {
  }

  lemma {:induction false} MappedByItsBox(hist: Histogram, boxes: seq<seq<Pixel>>, n: nat, p: Pixel, i: nat)
    requires n <= |boxes| && Populated(hist, boxes) && i < |boxes| && p in boxes[i]
    requires forall j | 0 <= j < |boxes| && p in boxes[j] :: j == i
    ensures i < n ==> p in Mapping(hist, boxes, n) && Mapping(hist, boxes, n)[p] == Representative(hist, boxes[i])
    ensures i >= n ==> p !in Mapping(hist, boxes, n)
  {
    hide Representative, Populated;
    if n > 0 {
      MappedByItsBox(hist, boxes, n - 1, p, i);
    }
  }

  /* -------- The whole -------- */

  function Pixels(rows: seq<seq<Pixel>>): seq<Pixel> {
    if rows == [] then [] else Pixels(rows[..|rows| - 1]) + rows[|rows| - 1]
  }

  // The boxes of an image with more colours than the limit.
  function BoxesOf(pixels: seq<Pixel>, limit: nat): seq<seq<Pixel>> {
    Boxes(HistogramOf(pixels), [Sort(ByKey, Seen(pixels))], limit)
  }

  lemma DistinctCounts(s: seq<Pixel>, p: Pixel)
    requires Distinct(s)
    ensures multiset(s)[p] <= 1
    ensures p in s <==> multiset(s)[p] == 1
  {
    if s != [] {
      DistinctCounts(s[1..], p);
      assert s == [s[0]] + s[1..];
    }
  }

  lemma {:induction false} PopulationPositive(hist: Histogram, box: seq<Pixel>)
    requires box != [] && forall p | p in box :: Count(hist, p) > 0
    ensures Population(hist, box) > 0
  {
  }

  lemma StartsPartitioned(pixels: seq<Pixel>)
    requires pixels != []
    ensures Partition([Sort(ByKey, Seen(pixels))], Seen(pixels))
  {
    FlatOne(Sort(ByKey, Seen(pixels)));
    SeenIsHistogram(pixels);
    assert |pixels| > 0;
    HistogramCounts(pixels, pixels[0]);
  }

  // The boxes partition the colours met, all of them populated, as many as the limit, with every pixel counted once.
  lemma BoxesOfPartition(pixels: seq<Pixel>, limit: nat)
    requires 1 <= limit < |Seen(pixels)|
    ensures var boxes := BoxesOf(pixels, limit);
      && Partition(boxes, Seen(pixels)) && |boxes| == limit && Populated(HistogramOf(pixels), boxes)
      && Population(HistogramOf(pixels), Flat(boxes)) == |pixels|
  {
    hide Boxes, Sort, Partition, Population, Seen, HistogramOf;
    var hist, first := HistogramOf(pixels), Sort(ByKey, Seen(pixels));
    SomePixels(pixels);
    StartsPartitioned(pixels);
    BoxesPartition(hist, [first], limit, Seen(pixels));
    FlatOne(first);
    PopulationSort(hist, ByKey, Seen(pixels));
    HistogramCountsAll(pixels);
    PartitionIsPopulated(pixels, BoxesOf(pixels, limit));
  }

  lemma SomePixels(pixels: seq<Pixel>)
    requires Seen(pixels) != []
    ensures pixels != []
  {
  }

  lemma PartitionIsPopulated(pixels: seq<Pixel>, boxes: seq<seq<Pixel>>)
    requires Partition(boxes, Seen(pixels))
    ensures Populated(HistogramOf(pixels), boxes)
  {
    hide Flat, Population, Seen, HistogramOf;
    forall i | 0 <= i < |boxes| ensures Population(HistogramOf(pixels), boxes[i]) > 0 {
      forall p | p in boxes[i] ensures Count(HistogramOf(pixels), p) > 0 {
        InFlat(boxes, p);
        assert p in multiset(Flat(boxes));
        assert p in Seen(pixels);
        SeenIsHistogram(pixels);
        HistogramCounts(pixels, p);
      }
      PopulationPositive(HistogramOf(pixels), boxes[i]);
    }
  }

  // Where a pixel of the image goes when there are too many colours.
  function Mapped(pixels: seq<Pixel>, limit: nat, p: Pixel): (q: Pixel)
    requires 1 <= limit < |Seen(pixels)| && p in pixels
  {
    BoxesOfPartition(pixels, limit);
    var boxes := BoxesOf(pixels, limit);
    MappingIsTotal(pixels, limit, p);
    Mapping(HistogramOf(pixels), boxes, |boxes|)[p]
  }

  // Each pixel is mapped to the mean of the one box that holds it, so inside that box's extent in every channel.
  lemma MappingIsTotal(pixels: seq<Pixel>, limit: nat, p: Pixel)
    requires 1 <= limit < |Seen(pixels)| && p in pixels
    ensures var hist, boxes := HistogramOf(pixels), BoxesOf(pixels, limit);
      && Populated(hist, boxes) && p in Mapping(hist, boxes, |boxes|)
      && (exists i | 0 <= i < |boxes| ::
            p in boxes[i] && Mapping(hist, boxes, |boxes|)[p] == Representative(hist, boxes[i]) && InExtent(Representative(hist, boxes[i]), boxes[i]))
  {
    hide Mapping, BoxesOf, Flat, Representative, InExtent, HistogramOf, Seen, Population;
    var hist, boxes := HistogramOf(pixels), BoxesOf(pixels, limit);
    BoxesOfPartition(pixels, limit);
    var i := BoxHolding(pixels, boxes, p);
    MappedByItsBox(hist, boxes, |boxes|, p, i);
    RepresentativeInExtent(hist, boxes[i]);
  }

  lemma BoxHolding(pixels: seq<Pixel>, boxes: seq<seq<Pixel>>, p: Pixel) returns (i: nat)
    requires Partition(boxes, Seen(pixels)) && p in pixels
    ensures i < |boxes| && p in boxes[i] && forall j | 0 <= j < |boxes| && p in boxes[j] :: j == i
  {
    hide Flat, Seen, HistogramOf;
    SeenIsHistogram(pixels);
    HistogramCounts(pixels, p);
    DistinctCounts(Seen(pixels), p);
    assert p in multiset(Flat(boxes));
    InFlat(boxes, p);
    i :| 0 <= i < |boxes| && p in boxes[i];
    forall j: nat | j < |boxes| && p in boxes[j] ensures j == i {
      OneBox(boxes, p, i, j);
    }
  }

  /* -------- What depends on what -------- */

  lemma SameColours(a: seq<Pixel>, b: seq<Pixel>)
    requires Distinct(a) && Distinct(b) && forall p :: p in a <==> p in b
    ensures multiset(a) == multiset(b)
  {
    forall p ensures multiset(a)[p] == multiset(b)[p] {
      DistinctCounts(a, p);
      DistinctCounts(b, p);
    }
  }

  // Two images with one histogram are cut into the same boxes, in whatever order their pixels come.
  lemma BoxesDependOnHistogram(a: seq<Pixel>, b: seq<Pixel>, limit: nat)
    requires HistogramOf(a) == HistogramOf(b)
    ensures BoxesOf(a, limit) == BoxesOf(b, limit)
  {
    hide Boxes, HistogramOf, Seen, Sort;
    SeenIsHistogram(a);
    SeenIsHistogram(b);
    SameColours(Seen(a), Seen(b));
    SortAscends(ByKey, Seen(a));
    SortAscends(ByKey, Seen(b));
    SortedIsUnique(ByKey, Sort(ByKey, Seen(a)), Sort(ByKey, Seen(b)));
  }

  lemma MappedDependsOnHistogram(a: seq<Pixel>, b: seq<Pixel>, limit: nat, p: Pixel)
    requires HistogramOf(a) == HistogramOf(b) && 1 <= limit < |Seen(a)| && p in a
    ensures |Seen(b)| == |Seen(a)| && p in b && Mapped(a, limit, p) == Mapped(b, limit, p)
  {
    hide BoxesOf, HistogramOf, Seen;
    SeenIsHistogram(a);
    SeenIsHistogram(b);
    SameColours(Seen(a), Seen(b));
    SameLength(Seen(a), Seen(b));
    HistogramCounts(a, p);
    HistogramCounts(b, p);
    BoxesDependOnHistogram(a, b, limit);
  }

  /* -------- The colour bound -------- */

  // The colours of a quantised image's pixels.
  function Quantised(pixels: seq<Pixel>, limit: nat): (r: seq<Pixel>)
    requires limit >= 1
    ensures |r| == |pixels|
  {
    if |Seen(pixels)| <= limit then pixels
    else seq(|pixels|, i requires 0 <= i < |pixels| => Mapped(pixels, limit, pixels[i]))
  }

  function Colours(pixels: seq<Pixel>): set<Pixel> {
    set p | p in pixels
  }

  // The means of the first n boxes.
  function Means(hist: Histogram, boxes: seq<seq<Pixel>>, n: nat): (r: set<Pixel>)
    requires n <= |boxes| && Populated(hist, boxes)
    ensures |r| <= n && forall i | 0 <= i < n :: Representative(hist, boxes[i]) in r
  {
    if n == 0 then {} else Means(hist, boxes, n - 1) + {Representative(hist, boxes[n - 1])}
  }

  lemma SubsetIsNoLarger(a: set<Pixel>, b: set<Pixel>)
    requires a <= b
    ensures |a| <= |b|
  {
    assert |b| == |a| + |b - a|;
  }

  lemma {:induction false} SeenCounts(s: seq<Pixel>)
    requires Distinct(s)
    ensures |Colours(s)| == |s|
  {
    if s != [] {
      SeenCounts(s[..|s| - 1]);
      assert Colours(s) == Colours(s[..|s| - 1]) + {s[|s| - 1]};
    }
  }

  // A quantised image has no more colours than the limit.
  lemma NoMoreThanTheLimit(pixels: seq<Pixel>, limit: nat)
    requires limit >= 1
    ensures |Colours(Quantised(pixels, limit))| <= limit
  {
    hide BoxesOf, HistogramOf, Seen, Mapping, Representative;
    SeenIsHistogram(pixels);
    if |Seen(pixels)| <= limit {
      SeenCounts(Seen(pixels));
      forall p ensures p in Seen(pixels) <==> p in pixels {
        HistogramCounts(pixels, p);
      }
      assert Colours(Seen(pixels)) == Colours(pixels);
    } else {
      var hist, boxes := HistogramOf(pixels), BoxesOf(pixels, limit);
      BoxesOfPartition(pixels, limit);
      var all := Means(hist, boxes, |boxes|);
      forall p | p in pixels ensures Mapped(pixels, limit, p) in all {
        MappingIsTotal(pixels, limit, p);
      }
      SubsetIsNoLarger(Colours(Quantised(pixels, limit)), all);
    }
  }

  // So main's own count of the colours of what it writes never stops it.
  lemma MainNeverRefuses(pixels: seq<Pixel>)
    ensures |Colours(Quantised(pixels, MAX_LINUX_LOGO_COLORS))| <= 224
  {
    NoMoreThanTheLimit(pixels, MAX_LINUX_LOGO_COLORS);
  }

  /* -------- The loops -------- */

  lemma PixelsNext(rows: seq<seq<Pixel>>, y: nat)
    requires y < |rows|
    ensures Pixels(rows[..y + 1]) == Pixels(rows[..y]) + rows[y]
  {
    assert rows[..y + 1][..y] == rows[..y];
  }

  lemma NextPixel(pixels: seq<Pixel>, row: seq<Pixel>, x: nat)
    requires x < |row|
    ensures var before, p := pixels + row[..x], row[x];
      && HistogramOf(pixels + row[..x + 1]) == HistogramOf(before)[p := Count(HistogramOf(before), p) + 1]
      && Seen(pixels + row[..x + 1]) == if p in Seen(before) then Seen(before) else Seen(before) + [p]
  {
    var after := pixels + row[..x + 1];
    assert after[..|after| - 1] == pixels + row[..x];
  }

  method BuildHistogram(rows: seq<seq<Pixel>>) returns (hist: Histogram, colours: seq<Pixel>)
    ensures hist == HistogramOf(Pixels(rows)) && colours == Seen(Pixels(rows))
  {
    hide HistogramOf, Seen;
    hist, colours := map[], [];
    NothingSeen();
    for y := 0 to |rows|
      invariant hist == HistogramOf(Pixels(rows[..y])) && colours == Seen(Pixels(rows[..y]))
    {
      var row := rows[y];
      ghost var before := Pixels(rows[..y]);
      assert before + row[..0] == before;
      for x := 0 to |row|
        invariant hist == HistogramOf(before + row[..x]) && colours == Seen(before + row[..x])
      {
        NextPixel(before, row, x);
        SeenIsHistogram(before + row[..x]);
        var p := row[x];
        if p !in hist {
          colours := colours + [p];
        }
        hist := hist[p := Count(hist, p) + 1];
      }
      assert row[..|row|] == row;
      PixelsNext(rows, y);
    }
    assert rows[..|rows|] == rows;
  }

  lemma NothingSeen()
    ensures HistogramOf([]) == map[] && Seen([]) == []
  {
  }

  method ChooseBox(hist: Histogram, boxes: seq<seq<Pixel>>) returns (best: Option<nat>)
    ensures best == Best(hist, boxes, |boxes|)
  {
    hide Preferred;
    best := None;
    for i := 0 to |boxes|
      invariant best == Best(hist, boxes, i)
    {
      if |boxes[i]| < 2 {
        continue;
      }
      if best.None? || Preferred(hist, boxes, i, best.value) {
        best := Some(i);
      }
    }
  }

  method FindCut(hist: Histogram, box: seq<Pixel>) returns (cut: nat)
    requires |box| >= 2
    ensures cut == Cut(hist, box)
  {
    var total := Population(hist, box);
    var run := 0;
    cut := 1;
    for j := 0 to |box|
      invariant run == Population(hist, box[..j]) && cut == 1
      invariant Median(hist, box, total, 0) == Median(hist, box, total, j)
    {
      assert box[..j + 1][..j] == box[..j];
      run := run + Count(hist, box[j]);
      if run * 2 >= total {
        return Min(Max(j, 1), |box| - 1);
      }
    }
  }

  method CutBoxes(hist: Histogram, colours: seq<Pixel>, limit: nat) returns (boxes: seq<seq<Pixel>>)
    ensures boxes == Boxes(hist, [Sort(ByKey, colours)], limit)
  {
    hide Sort, Population, Cut, Best, Widest;
    boxes := [Sort(ByKey, colours)];
    while |boxes| < limit
      invariant Boxes(hist, [Sort(ByKey, colours)], limit) == Boxes(hist, boxes, limit)
      decreases limit - |boxes|
    {
      var best := ChooseBox(hist, boxes);
      if best.None? {
        break;
      }
      var i := best.value;
      var box := Sort(ByChannel(Widest(boxes[i])), boxes[i]);
      var cut := FindCut(hist, box);
      boxes := boxes[..i] + [box[..cut], box[cut..]] + boxes[i + 1..];
    }
  }

  lemma {:induction false} RowInPixels(rows: seq<seq<Pixel>>, y: nat, x: nat)
    requires y < |rows| && x < |rows[y]|
    ensures rows[y][x] in Pixels(rows)
  {
    if y < |rows| - 1 {
      RowInPixels(rows[..|rows| - 1], y, x);
    }
  }

  ghost predicate SameShape(a: seq<seq<Pixel>>, b: seq<seq<Pixel>>) {
    |a| == |b| && forall y | 0 <= y < |a| :: |a[y]| == |b[y]|
  }

  method Quantise(rows: seq<seq<Pixel>>, limit: nat) returns (out: seq<seq<Pixel>>)
    requires limit >= 1
    ensures SameShape(out, rows)
    ensures |Seen(Pixels(rows))| <= limit ==> out == rows
    ensures |Seen(Pixels(rows))| > limit ==> forall y, x | 0 <= y < |rows| && 0 <= x < |rows[y]| ::
              rows[y][x] in Pixels(rows) && out[y][x] == Mapped(Pixels(rows), limit, rows[y][x])
    ensures |Colours(Pixels(out))| <= limit
  {
    hide HistogramOf, Seen, Pixels, Boxes, Sort, Representative, Population, Mapped, Quantised;
    var hist, colours := BuildHistogram(rows);
    NoMoreThanTheLimit(Pixels(rows), limit);
    if |colours| <= limit {
      FewColours(Pixels(rows), limit);
      return rows;
    }
    var boxes := CutBoxes(hist, colours, limit);
    ghost var pixels := Pixels(rows);
    BoxesOfPartition(pixels, limit);
    var mapping: map<Pixel, Pixel> := map[];
    for i := 0 to |boxes|
      invariant mapping == Mapping(hist, boxes, i)
    {
      mapping := Assign(mapping, boxes[i], Representative(hist, boxes[i]));
    }
    out := [];
    for y := 0 to |rows|
      invariant |out| == y && forall i | 0 <= i < y :: |out[i]| == |rows[i]|
      invariant forall i, x | 0 <= i < y && 0 <= x < |rows[i]| ::
                  rows[i][x] in pixels && out[i][x] == Mapped(pixels, limit, rows[i][x])
    {
      var row := MapRow(rows, y, mapping, pixels, limit);
      out := out + [row];
    }
    OutIsQuantised(rows, out, limit);
    SubsetIsNoLarger(Colours(Pixels(out)), Colours(Quantised(pixels, limit)));
  }

  lemma FewColours(pixels: seq<Pixel>, limit: nat)
    requires |Seen(pixels)| <= limit && limit >= 1
    ensures Quantised(pixels, limit) == pixels
  {
  }

  lemma {:induction false} PixelInRow(rows: seq<seq<Pixel>>, p: Pixel) returns (y: nat, x: nat)
    requires p in Pixels(rows)
    ensures y < |rows| && x < |rows[y]| && rows[y][x] == p
  {
    var last := |rows| - 1;
    if p in rows[last] {
      y := last;
      x :| 0 <= x < |rows[last]| && rows[last][x] == p;
    } else {
      y, x := PixelInRow(rows[..last], p);
    }
  }

  lemma QuantisedHas(pixels: seq<Pixel>, limit: nat, p: Pixel)
    requires 1 <= limit < |Seen(pixels)| && p in pixels
    ensures Mapped(pixels, limit, p) in Quantised(pixels, limit)
  {
    hide Seen, Mapped;
    var i :| 0 <= i < |pixels| && pixels[i] == p;
    assert Quantised(pixels, limit)[i] == Mapped(pixels, limit, p);
  }

  // The rows that come out hold no colour but those of the quantised pixels.
  lemma OutIsQuantised(rows: seq<seq<Pixel>>, out: seq<seq<Pixel>>, limit: nat)
    requires 1 <= limit < |Seen(Pixels(rows))| && SameShape(out, rows)
    requires forall y, x | 0 <= y < |rows| && 0 <= x < |rows[y]| ::
               rows[y][x] in Pixels(rows) && out[y][x] == Mapped(Pixels(rows), limit, rows[y][x])
    ensures Colours(Pixels(out)) <= Colours(Quantised(Pixels(rows), limit))
  {
    hide Seen, Pixels, Mapped, Quantised;
    forall q | q in Pixels(out) ensures q in Quantised(Pixels(rows), limit) {
      var y, x := PixelInRow(out, q);
      QuantisedHas(Pixels(rows), limit, rows[y][x]);
    }
  }

  method MapRow(rows: seq<seq<Pixel>>, y: nat, mapping: map<Pixel, Pixel>, ghost pixels: seq<Pixel>, ghost limit: nat) returns (row: seq<Pixel>)
    requires y < |rows| && pixels == Pixels(rows) && 1 <= limit < |Seen(pixels)|
    requires Populated(HistogramOf(pixels), BoxesOf(pixels, limit))
    requires mapping == Mapping(HistogramOf(pixels), BoxesOf(pixels, limit), |BoxesOf(pixels, limit)|)
    ensures |row| == |rows[y]|
    ensures forall x | 0 <= x < |row| :: rows[y][x] in pixels && row[x] == Mapped(pixels, limit, rows[y][x])
  {
    hide HistogramOf, Seen, Pixels, BoxesOf, Mapping, Populated;
    row := [];
    for x := 0 to |rows[y]|
      invariant |row| == x && forall i | 0 <= i < x :: rows[y][i] in pixels && row[i] == Mapped(pixels, limit, rows[y][i])
    {
      RowInPixels(rows, y, x);
      MappingIsTotal(pixels, limit, rows[y][x]);
      row := row + [mapping[rows[y][x]]];
    }
  }
}
