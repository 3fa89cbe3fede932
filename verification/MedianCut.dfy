// The median cut of the logo (quantise, common/kernel/mklogo.ts): boxes over the distinct colours, split at the
// population median until there are as many as the limit, and each colour mapped to its box's mean.
module MedianCut {
  import opened Arithmetic
  import opened Wrappers
  import opened Resample

  /* -------- Orders on colours -------- */

  // key(p); as colours are told apart by it, maps over keys are maps over colours.
  function Key(p: Pixel): (k: nat)
    ensures k < 0x100_0000
  {
    (p.r as int) * 65536 + (p.g as int) * 256 + (p.b as int)
  }

  lemma KeyIsInjective(p: Pixel, q: Pixel)
    ensures Key(p) == Key(q) <==> p == q
  {
  }

  // cmpPixel: red, then green, then blue.
  function Compare(a: Pixel, b: Pixel): int {
    if a.r != b.r then a.r as int - b.r as int else if a.g != b.g then a.g as int - b.g as int else a.b as int - b.b as int
  }

  // The order within a box about to be split: by one channel, then as above.
  function CompareBy(c: Channel, a: Pixel, b: Pixel): int {
    if Of(a, c) != Of(b, c) then Of(a, c) as int - Of(b, c) as int else Compare(a, b)
  }

  // Both are orders on numbers, so neither ties distinct colours and every sort gives one answer.
  datatype Order = ByKey | ByChannel(c: Channel)

  function Rank(o: Order, p: Pixel): nat {
    match o
    case ByKey => Key(p)
    case ByChannel(c) => (Of(p, c) as int) * 0x100_0000 + Key(p)
  }

  lemma OrdersAreRanks(c: Channel, a: Pixel, b: Pixel)
    ensures Compare(a, b) < 0 <==> Rank(ByKey, a) < Rank(ByKey, b)
    ensures Compare(a, b) == 0 <==> a == b
    ensures CompareBy(c, a, b) < 0 <==> Rank(ByChannel(c), a) < Rank(ByChannel(c), b)
    ensures CompareBy(c, a, b) == 0 <==> a == b
  {
    KeyIsInjective(a, b);
  }

  lemma RankIsInjective(o: Order, a: Pixel, b: Pixel)
    requires Rank(o, a) == Rank(o, b)
    ensures a == b
  {
    if o.ByChannel? {
      OrdersAreRanks(o.c, a, b);
    }
    KeyIsInjective(a, b);
  }

  /* -------- Sorting -------- */

  function Insert(o: Order, x: Pixel, s: seq<Pixel>): (r: seq<Pixel>)
    ensures |r| == |s| + 1
    ensures multiset(r) == multiset(s) + multiset{x}
  {
    if s == [] then [x]
    else if Rank(o, x) <= Rank(o, s[0]) then [x] + s
    else
      var r := Insert(o, x, s[1..]);
      assert s == [s[0]] + s[1..];
      [s[0]] + r
  }

  // What any correct sort returns.
  function Sort(o: Order, s: seq<Pixel>): (r: seq<Pixel>)
    ensures |r| == |s|
    ensures multiset(r) == multiset(s)
  {
    if s == [] then [] else
      assert s == [s[0]] + s[1..];
      Insert(o, s[0], Sort(o, s[1..]))
  }

  ghost predicate Ascending(o: Order, s: seq<Pixel>) {
    forall i, j | 0 <= i < j < |s| :: Rank(o, s[i]) <= Rank(o, s[j])
  }

  ghost predicate Distinct(s: seq<Pixel>) {
    forall i, j | 0 <= i < j < |s| :: s[i] != s[j]
  }

  lemma {:induction false} InsertAscends(o: Order, x: Pixel, s: seq<Pixel>)
    requires Ascending(o, s)
    ensures Ascending(o, Insert(o, x, s))
  {
    hide Rank;
    if s != [] && Rank(o, x) > Rank(o, s[0]) {
      InsertAscends(o, x, s[1..]);
      var r := Insert(o, x, s[1..]);
      forall j | 0 <= j < |r| ensures Rank(o, s[0]) <= Rank(o, r[j]) {
        assert r[j] in multiset(r);
        if r[j] in multiset(s[1..]) {
          var i :| 0 <= i < |s[1..]| && s[1..][i] == r[j];
          assert s[i + 1] == r[j];
        }
      }
    }
  }

  lemma {:induction false} SortAscends(o: Order, s: seq<Pixel>)
    ensures Ascending(o, Sort(o, s))
  {
    hide Insert;
    if s != [] {
      SortAscends(o, s[1..]);
      InsertAscends(o, s[0], Sort(o, s[1..]));
    }
  }

  lemma FirstIsLeast(o: Order, a: seq<Pixel>, x: Pixel)
    requires Ascending(o, a) && x in multiset(a)
    ensures a != [] && Rank(o, a[0]) <= Rank(o, x)
  {
    hide Rank;
    var i :| 0 <= i < |a| && a[i] == x;
  }

  lemma MultisetTail(a: seq<Pixel>)
    requires a != []
    ensures multiset(a[1..]) == multiset(a) - multiset{a[0]}
    ensures a[0] in multiset(a)
  {
    assert a == [a[0]] + a[1..];
  }

  // Two ascending arrangements of the same colours are one.
  lemma {:induction false} SortedIsUnique(o: Order, a: seq<Pixel>, b: seq<Pixel>)
    requires Ascending(o, a) && Ascending(o, b) && multiset(a) == multiset(b)
    ensures a == b
    decreases |a|
  {
    hide Rank;
    SameLength(a, b);
    if a != [] {
      MultisetTail(a);
      MultisetTail(b);
      FirstIsLeast(o, a, b[0]);
      FirstIsLeast(o, b, a[0]);
      RankIsInjective(o, a[0], b[0]);
      AscendingTail(o, a);
      AscendingTail(o, b);
      hide Ascending;
      SortedIsUnique(o, a[1..], b[1..]);
      assert a == [a[0]] + a[1..] && b == [b[0]] + b[1..];
    }
  }

  lemma AscendingTail(o: Order, a: seq<Pixel>)
    requires Ascending(o, a) && a != []
    ensures Ascending(o, a[1..])
  {
    hide Rank;
  }

  lemma SameLength(a: seq<Pixel>, b: seq<Pixel>)
    requires multiset(a) == multiset(b)
    ensures |a| == |b|
  {
    assert |a| == |multiset(a)| && |b| == |multiset(b)|;
  }

  /* -------- Populations -------- */

  type Histogram = map<Pixel, nat>

  function Count(hist: Histogram, p: Pixel): nat {
    if p in hist then hist[p] else 0
  }

  // A box's population.
  function Population(hist: Histogram, box: seq<Pixel>): nat {
    if box == [] then 0 else Population(hist, box[..|box| - 1]) + Count(hist, box[|box| - 1])
  }

  lemma {:induction false} PopulationConcat(hist: Histogram, a: seq<Pixel>, b: seq<Pixel>)
    ensures Population(hist, a + b) == Population(hist, a) + Population(hist, b)
    decreases |b|
  {
    if b == [] {
      assert a + b == a;
    } else {
      assert (a + b)[..|a + b| - 1] == a + b[..|b| - 1];
      PopulationConcat(hist, a, b[..|b| - 1]);
    }
  }

  lemma {:induction false} PopulationInsert(hist: Histogram, o: Order, x: Pixel, s: seq<Pixel>)
    ensures Population(hist, Insert(o, x, s)) == Population(hist, s) + Count(hist, x)
  {
    hide Rank, Population;
    PopulationOne(hist, x);
    if s == [] {
    } else if Rank(o, x) <= Rank(o, s[0]) {
      PopulationConcat(hist, [x], s);
    } else {
      PopulationOne(hist, s[0]);
      PopulationInsert(hist, o, x, s[1..]);
      PopulationConcat(hist, [s[0]], Insert(o, x, s[1..]));
      PopulationConcat(hist, [s[0]], s[1..]);
      assert s == [s[0]] + s[1..];
    }
    assert Population(hist, []) == 0 by { PopulationNone(hist); }
  }

  lemma PopulationNone(hist: Histogram)
    ensures Population(hist, []) == 0
  {
  }

  lemma PopulationOne(hist: Histogram, x: Pixel)
    ensures Population(hist, [x]) == Count(hist, x)
  {
    assert [x][..0] == [];
  }

  // Sorting moves no population.
  lemma {:induction false} PopulationSort(hist: Histogram, o: Order, s: seq<Pixel>)
    ensures Population(hist, Sort(o, s)) == Population(hist, s)
  {
    hide Insert, Population;
    if s != [] {
      PopulationSort(hist, o, s[1..]);
      PopulationInsert(hist, o, s[0], Sort(o, s[1..]));
      PopulationConcat(hist, [s[0]], s[1..]);
      PopulationOne(hist, s[0]);
      assert s == [s[0]] + s[1..];
    }
  }

  /* -------- The histogram -------- */

  // The colours met so far, in the order of their first pixels, and how often each was met.
  function Seen(pixels: seq<Pixel>): seq<Pixel> {
    if pixels == [] then [] else
      var s := Seen(pixels[..|pixels| - 1]);
      var p := pixels[|pixels| - 1];
      if p in s then s else s + [p]
  }

  function HistogramOf(pixels: seq<Pixel>): Histogram {
    if pixels == [] then map[] else
      var hist := HistogramOf(pixels[..|pixels| - 1]);
      var p := pixels[|pixels| - 1];
      hist[p := Count(hist, p) + 1]
  }

  // The histogram's keys are the colours met, each once.
  lemma {:induction false} SeenIsHistogram(pixels: seq<Pixel>)
    ensures Distinct(Seen(pixels)) && forall p :: p in Seen(pixels) <==> p in HistogramOf(pixels)
  {
    if pixels != [] {
      SeenIsHistogram(pixels[..|pixels| - 1]);
    }
  }

  // It counts each colour's pixels.
  lemma {:induction false} HistogramCounts(pixels: seq<Pixel>, p: Pixel)
    ensures Count(HistogramOf(pixels), p) == multiset(pixels)[p]
    ensures p in HistogramOf(pixels) <==> p in pixels
  {
    if pixels != [] {
      HistogramCounts(pixels[..|pixels| - 1], p);
      assert pixels == pixels[..|pixels| - 1] + [pixels[|pixels| - 1]];
    }
  }

  // And together every pixel.
  lemma {:induction false} HistogramCountsAll(pixels: seq<Pixel>)
    ensures Population(HistogramOf(pixels), Seen(pixels)) == |pixels|
  {
    hide Population;
    if pixels == [] {
      PopulationNone(HistogramOf(pixels));
    } else {
      var before, p := pixels[..|pixels| - 1], pixels[|pixels| - 1];
      HistogramCountsAll(before);
      SeenIsHistogram(before);
      OneMore(HistogramOf(before), Seen(before), p);
    }
  }

  lemma OneMore(hist: Histogram, seen: seq<Pixel>, p: Pixel)
    requires Distinct(seen) && forall q :: q in seen <==> q in hist
    ensures var hist' := hist[p := Count(hist, p) + 1];
      Population(hist', if p in seen then seen else seen + [p]) == Population(hist, seen) + 1
  {
    var hist' := hist[p := Count(hist, p) + 1];
    if p in seen {
      Counted(hist, seen, p);
    } else {
      CountedElsewhere(hist, seen, p);
      PopulationConcat(hist', seen, [p]);
      PopulationOne(hist', p);
    }
  }

  lemma {:induction false} CountedElsewhere(hist: Histogram, seen: seq<Pixel>, p: Pixel)
    requires p !in seen
    ensures Population(hist[p := Count(hist, p) + 1], seen) == Population(hist, seen)
  {
    if seen != [] {
      CountedElsewhere(hist, seen[..|seen| - 1], p);
    }
  }

  lemma {:induction false} Counted(hist: Histogram, seen: seq<Pixel>, p: Pixel)
    requires Distinct(seen) && p in seen
    ensures Population(hist[p := Count(hist, p) + 1], seen) == Population(hist, seen) + 1
  {
    var last := seen[|seen| - 1];
    if last == p {
      CountedElsewhere(hist, seen[..|seen| - 1], p);
    } else {
      assert p in seen[..|seen| - 1];
      Counted(hist, seen[..|seen| - 1], p);
    }
  }

  /* -------- Choosing a box -------- */

  // The spread of a channel over a box: hi - lo, from 255 and 0.
  function Lo(box: seq<Pixel>, c: Channel): (n: nat)
    ensures n <= 255 && forall i | 0 <= i < |box| :: n <= Of(box[i], c)
    ensures n == 255 || exists i | 0 <= i < |box| :: Of(box[i], c) == n
  {
    if box == [] then 255 else
      var lo := Lo(box[..|box| - 1], c);
      if Of(box[|box| - 1], c) < lo then Of(box[|box| - 1], c) else lo
  }

  function Hi(box: seq<Pixel>, c: Channel): (n: nat)
    ensures n <= 255 && forall i | 0 <= i < |box| :: Of(box[i], c) <= n
    ensures n == 0 || exists i | 0 <= i < |box| :: Of(box[i], c) == n
  {
    if box == [] then 0 else
      var hi := Hi(box[..|box| - 1], c);
      if Of(box[|box| - 1], c) > hi then Of(box[|box| - 1], c) else hi
  }

  function Extent(box: seq<Pixel>, c: Channel): int {
    Hi(box, c) - Lo(box, c)
  }

  // The largest difference of two colours of the box.
  lemma ExtentIsDifference(box: seq<Pixel>, c: Channel)
    requires box != []
    ensures forall p, q | p in box && q in box :: Of(p, c) as int - Of(q, c) as int <= Extent(box, c)
    ensures exists p, q :: p in box && q in box && Of(p, c) as int - Of(q, c) as int == Extent(box, c)
  {
    var i := Attained(box, c, Hi(box, c));
    var j := Attained(box, c, Lo(box, c));
    assert box[i] in box && box[j] in box;
  }

  lemma Attained(box: seq<Pixel>, c: Channel, n: nat) returns (i: nat)
    requires box != [] && (n == Hi(box, c) || n == Lo(box, c))
    ensures i < |box| && Of(box[i], c) as int == n
  {
    assert Lo(box, c) <= Of(box[0], c) as int <= Hi(box, c);
    i :| i < |box| && Of(box[i], c) as int == n;
  }

  function Spread(box: seq<Pixel>): int {
    Max(Extent(box, Red), Max(Extent(box, Green), Extent(box, Blue)))
  }

  // The widest channel, the first of those that tie.
  function Widest(box: seq<Pixel>): Channel {
    var c := if Extent(box, Green) > Extent(box, Red) then Green else Red;
    if Extent(box, Blue) > Extent(box, c) then Blue else c
  }

  // Box i is preferred to box j: wider, else fuller, else earlier.
  predicate Preferred(hist: Histogram, boxes: seq<seq<Pixel>>, i: nat, j: nat)
    requires i < |boxes| && j < |boxes|
  {
    var s, t := Spread(boxes[i]), Spread(boxes[j]);
    var m, n := Population(hist, boxes[i]), Population(hist, boxes[j]);
    s > t || (s == t && (m > n || (m == n && i < j)))
  }

  // The box to split, of the first n; None where each has one colour.
  function Best(hist: Histogram, boxes: seq<seq<Pixel>>, n: nat): (best: Option<nat>)
    requires n <= |boxes|
    ensures best.Some? ==> best.value < n && |boxes[best.value]| >= 2
  {
    if n == 0 then None else Better(hist, boxes, n - 1, Best(hist, boxes, n - 1))
  }

  // Box i, if it can be split and is preferred to the best so far.
  function Better(hist: Histogram, boxes: seq<seq<Pixel>>, i: nat, best: Option<nat>): (r: Option<nat>)
    requires i < |boxes| && (best.Some? ==> best.value < |boxes|)
    ensures r == best || (r == Some(i) && |boxes[i]| >= 2)
  {
    if |boxes[i]| < 2 then best
    else if best.None? || Preferred(hist, boxes, i, best.value) then Some(i)
    else best
  }

  // It is preferred to every other that can be split: there is none wider, none as wide and fuller, and none before it as
  // wide and as full.
  lemma {:induction false} BestIsPreferred(hist: Histogram, boxes: seq<seq<Pixel>>, n: nat, j: nat)
    requires j < n <= |boxes| && |boxes[j]| >= 2
    ensures Best(hist, boxes, n).Some?
    ensures var i := Best(hist, boxes, n).value;
      && Spread(boxes[j]) <= Spread(boxes[i])
      && (Spread(boxes[j]) == Spread(boxes[i]) ==> Population(hist, boxes[j]) <= Population(hist, boxes[i]))
      && (Spread(boxes[j]) == Spread(boxes[i]) && Population(hist, boxes[j]) == Population(hist, boxes[i]) ==> i <= j)
  {
    hide Spread, Population;
    if j < n - 1 {
      BestIsPreferred(hist, boxes, n - 1, j);
    }
    if |boxes[n - 1]| >= 2 && j != n - 1 && Best(hist, boxes, n) == Some(n - 1) {
      BestIsPreferred(hist, boxes, n - 1, j);
    }
  }

  /* -------- Splitting -------- */

  // The first index at which the running population, doubled, reaches the total.
  function Median(hist: Histogram, box: seq<Pixel>, total: nat, j: nat): (r: nat)
    requires j <= |box|
    ensures j <= r <= |box|
    decreases |box| - j
  {
    if j == |box| || Population(hist, box[..j + 1]) * 2 >= total then j else Median(hist, box, total, j + 1)
  }

  function Cut(hist: Histogram, box: seq<Pixel>): (cut: nat)
    requires |box| >= 2
    ensures 1 <= cut < |box|
  {
    var j := Median(hist, box, Population(hist, box), 0);
    if j == |box| then 1 else Min(Max(j, 1), |box| - 1)
  }

  function Sorted(box: seq<Pixel>): (r: seq<Pixel>)
    ensures |r| == |box| && multiset(r) == multiset(box)
  {
    Sort(ByChannel(Widest(box)), box)
  }

  function Split(hist: Histogram, boxes: seq<seq<Pixel>>, i: nat): (r: seq<seq<Pixel>>)
    requires i < |boxes| && |boxes[i]| >= 2
    ensures |r| == |boxes| + 1
  {
    var box := Sorted(boxes[i]);
    var cut := Cut(hist, box);
    boxes[..i] + [box[..cut], box[cut..]] + boxes[i + 1..]
  }

  // The boxes the loop ends with.
  function Boxes(hist: Histogram, boxes: seq<seq<Pixel>>, limit: nat): seq<seq<Pixel>>
    decreases limit - |boxes|
  {
    if |boxes| >= limit then boxes else
      match Best(hist, boxes, |boxes|)
      case None => boxes
      case Some(i) => Boxes(hist, Split(hist, boxes, i), limit)
  }

  // The widest channel is as wide as any, the first of those as wide, and it is the spread.
  lemma WidestIsSpread(box: seq<Pixel>, c: Channel)
    ensures Extent(box, c) <= Extent(box, Widest(box)) == Spread(box)
    ensures Extent(box, c) == Spread(box) ==> Widest(box) == c || Widest(box).Red? || c.Blue?
  {
    hide Lo, Hi;
  }

  // The median is where the population so far first reaches half: less than half lies before it.
  lemma {:induction false} MedianIsFirst(hist: Histogram, box: seq<Pixel>, total: nat, j: nat)
    requires j <= |box|
    ensures var m := Median(hist, box, total, j);
      && (m < |box| ==> Population(hist, box[..m + 1]) * 2 >= total)
      && forall k | j < k <= m :: Population(hist, box[..k]) * 2 < total
    decreases |box| - j
  {
    hide Population;
    if j < |box| && Population(hist, box[..j + 1]) * 2 < total {
      MedianIsFirst(hist, box, total, j + 1);
    }
  }

  // A box is cut at its median, moved only as far as leaves both halves a colour: it is reached in every box.
  lemma CutIsAtTheMedian(hist: Histogram, box: seq<Pixel>)
    requires |box| >= 2
    ensures var m := Median(hist, box, Population(hist, box), 0);
      m < |box| && Cut(hist, box) == if m == 0 then 1 else m
  {
    hide Population, Median;
    MedianIsFirst(hist, box, Population(hist, box), 0);
    assert box[..|box|] == box;
  }

  // No colour in the lower half exceeds one in the upper in the channel the box was cut by.
  lemma HalvesAreOrdered(hist: Histogram, box: seq<Pixel>, i: nat, j: nat)
    requires |box| >= 2 && i < Cut(hist, Sorted(box)) <= j < |box|
    ensures Of(Sorted(box)[i], Widest(box)) <= Of(Sorted(box)[j], Widest(box))
  {
    hide Cut, Sort, Widest;
    SortAscends(ByChannel(Widest(box)), box);
    RankIsChannelFirst(Widest(box), Sorted(box)[i], Sorted(box)[j]);
  }

  lemma RankIsChannelFirst(c: Channel, a: Pixel, b: Pixel)
    requires Rank(ByChannel(c), a) <= Rank(ByChannel(c), b)
    ensures Of(a, c) <= Of(b, c)
  {
  }

  /* -------- The partition -------- */

  function Flat(boxes: seq<seq<Pixel>>): seq<Pixel> {
    if boxes == [] then [] else Flat(boxes[..|boxes| - 1]) + boxes[|boxes| - 1]
  }

  ghost predicate NonEmpty(boxes: seq<seq<Pixel>>) {
    forall i | 0 <= i < |boxes| :: boxes[i] != []
  }

  // Boxes that hold the given colours, each as often as they do, and none empty.
  ghost predicate Partition(boxes: seq<seq<Pixel>>, colours: seq<Pixel>) {
    NonEmpty(boxes) && multiset(Flat(boxes)) == multiset(colours)
  }

  lemma {:induction false} FlatConcat(a: seq<seq<Pixel>>, b: seq<seq<Pixel>>)
    ensures Flat(a + b) == Flat(a) + Flat(b)
    decreases |b|
  {
    if b == [] {
      assert a + b == a;
    } else {
      var front, last := b[..|b| - 1], b[|b| - 1];
      FlatConcat(a, front);
      assert (a + b)[..|a + b| - 1] == a + front;
      assert Flat(a + b) == Flat(a + front) + last;
      hide Flat;
    }
  }

  lemma FlatOne(box: seq<Pixel>)
    ensures Flat([box]) == box
  {
    assert [box][..0] == [];
  }

  lemma FlatTwo(a: seq<Pixel>, b: seq<Pixel>)
    ensures Flat([a, b]) == a + b
  {
    assert [a, b][..1] == [a];
    FlatOne(a);
  }

  lemma SplitFlat(hist: Histogram, boxes: seq<seq<Pixel>>, i: nat)
    requires i < |boxes| && |boxes[i]| >= 2
    ensures Flat(boxes) == Flat(boxes[..i]) + boxes[i] + Flat(boxes[i + 1..])
    ensures Flat(Split(hist, boxes, i)) == Flat(boxes[..i]) + Sorted(boxes[i]) + Flat(boxes[i + 1..])
  {
    hide Flat, Sorted;
    assert boxes == boxes[..i] + [boxes[i]] + boxes[i + 1..];
    FlatConcat(boxes[..i] + [boxes[i]], boxes[i + 1..]);
    FlatConcat(boxes[..i], [boxes[i]]);
    FlatOne(boxes[i]);
    var box := Sorted(boxes[i]);
    var cut := Cut(hist, box);
    FlatConcat(boxes[..i] + [box[..cut], box[cut..]], boxes[i + 1..]);
    FlatConcat(boxes[..i], [box[..cut], box[cut..]]);
    FlatTwo(box[..cut], box[cut..]);
    assert box[..cut] + box[cut..] == box;
  }

  lemma SplitKeepsPopulation(hist: Histogram, boxes: seq<seq<Pixel>>, i: nat)
    requires i < |boxes| && |boxes[i]| >= 2
    ensures Population(hist, Flat(Split(hist, boxes, i))) == Population(hist, Flat(boxes))
  {
    hide Flat, Population, Split;
    SplitFlat(hist, boxes, i);
    var a, b, c := Flat(boxes[..i]), boxes[i], Flat(boxes[i + 1..]);
    PopulationConcat(hist, a + b, c);
    PopulationConcat(hist, a, b);
    PopulationConcat(hist, a + Sorted(b), c);
    PopulationConcat(hist, a, Sorted(b));
    PopulationSort(hist, ByChannel(Widest(b)), b);
  }

  lemma SplitIsNonEmpty(hist: Histogram, boxes: seq<seq<Pixel>>, i: nat)
    requires i < |boxes| && |boxes[i]| >= 2 && NonEmpty(boxes)
    ensures NonEmpty(Split(hist, boxes, i))
  {
    hide Cut, Sorted;
  }

  lemma SplitKeepsPartition(hist: Histogram, boxes: seq<seq<Pixel>>, i: nat, colours: seq<Pixel>)
    requires i < |boxes| && |boxes[i]| >= 2 && Partition(boxes, colours)
    ensures Partition(Split(hist, boxes, i), colours)
  {
    hide Flat, Split, NonEmpty;
    SplitFlat(hist, boxes, i);
    SplitIsNonEmpty(hist, boxes, i);
  }

  lemma {:induction false} Singletons(boxes: seq<seq<Pixel>>)
    requires forall i | 0 <= i < |boxes| :: |boxes[i]| == 1
    ensures |Flat(boxes)| == |boxes|
  {
    if boxes != [] {
      Singletons(boxes[..|boxes| - 1]);
    }
  }

  // While there are fewer boxes than colours there is a box to split: the loop never breaks off.
  lemma AlwaysABest(hist: Histogram, boxes: seq<seq<Pixel>>, colours: seq<Pixel>)
    requires Partition(boxes, colours) && |boxes| < |colours|
    ensures Best(hist, boxes, |boxes|).Some?
  {
    hide Flat, Best;
    SameLength(Flat(boxes), colours);
    if forall j | 0 <= j < |boxes| :: |boxes[j]| < 2 {
      Singletons(boxes);
    } else {
      var j :| 0 <= j < |boxes| && |boxes[j]| >= 2;
      BestIsPreferred(hist, boxes, |boxes|, j);
    }
  }

  // Every box along the way, and so the last, partitions the colours and keeps the population; and with more colours
  // than the limit the loop ends with exactly the limit.
  lemma {:induction false} BoxesPartition(hist: Histogram, boxes: seq<seq<Pixel>>, limit: nat, colours: seq<Pixel>)
    requires Partition(boxes, colours) && |boxes| <= limit < |colours|
    ensures Partition(Boxes(hist, boxes, limit), colours)
    ensures |Boxes(hist, boxes, limit)| == limit
    ensures Population(hist, Flat(Boxes(hist, boxes, limit))) == Population(hist, Flat(boxes))
    decreases limit - |boxes|
  {
    hide Flat, Partition, Population, Split;
    if |boxes| < limit {
      AlwaysABest(hist, boxes, colours);
      var i := Best(hist, boxes, |boxes|).value;
      SplitKeepsPartition(hist, boxes, i, colours);
      SplitKeepsPopulation(hist, boxes, i);
      BoxesPartition(hist, Split(hist, boxes, i), limit, colours);
    }
  }
}
