// The row filters of a truecolour PNG, undone in place (readPng, common/kernel/mklogo.ts): each of the five inverts the
// filter that section 9 of the PNG specification applies, and so do any choice of them over the rows of an image.
module PngFilter {
  import opened Bytes

  datatype Filter = Unfiltered | Sub | Up | Average | Paeth

  function Abs(n: int): (m: nat)
    ensures m == n || m == -n
  {
    if n < 0 then -n else n
  }

  function PaethPredictor(a: byte, b: byte, c: byte): byte {
    var p := a as int + b as int - c as int;
    var pa, pb, pc := Abs(p - a), Abs(p - b), Abs(p - c);
    if pa <= pb && pa <= pc then a else if pb <= pc then b else c
  }

  // Of the neighbours the one nearest to a + b - c: a before b before c among those as near.
  predicate Nearest(x: byte, a: byte, b: byte, c: byte) {
    var p := a as int + b as int - c as int;
    && (x == a || x == b || x == c)
    && Abs(p - x) <= Abs(p - a) && Abs(p - x) <= Abs(p - b) && Abs(p - x) <= Abs(p - c)
    && (Abs(p - x) == Abs(p - a) ==> x == a)
    && (Abs(p - x) == Abs(p - b) ==> x == a || x == b)
  }

  lemma PaethIsNearest(a: byte, b: byte, c: byte, x: byte)
    ensures Nearest(x, a, b, c) <==> x == PaethPredictor(a, b, c)
  {
  }

  // The prediction of a byte from those to its left, above it, and above that to its left.
  function Predicted(f: Filter, a: byte, b: byte, c: byte): byte {
    match f
    case Unfiltered => 0
    case Sub => a
    case Up => b
    case Average => (a + b) / 2
    case Paeth => PaethPredictor(a, b, c)
  }

  function Left(s: seq<byte>, i: nat, bpp: nat): byte
    requires i <= |s|
  {
    if bpp > 0 && i >= bpp then s[i - bpp] else 0
  }

  function Plus(x: byte, y: byte): byte {
    ((x as int) + (y as int)) % 256
  }

  function Minus(x: byte, y: byte): byte {
    ((x as int) - (y as int)) % 256
  }

  // The first n bytes of a row recovered from its filtered bytes and the row above.
  function Unfilter(f: Filter, raw: seq<byte>, prev: seq<byte>, bpp: nat, n: nat): (r: seq<byte>)
    requires |raw| == |prev| && n <= |raw|
    ensures |r| == n
  {
    if n == 0 then [] else
      var r := Unfilter(f, raw, prev, bpp, n - 1);
      r + [Plus(raw[n - 1], Predicted(f, Left(r, n - 1, bpp), prev[n - 1], Left(prev, n - 1, bpp)))]
  }

  // The encoder's side: what is left of each byte once its prediction from the original row is taken away.
  function Filtered(f: Filter, row: seq<byte>, prev: seq<byte>, bpp: nat): (r: seq<byte>)
    requires |row| == |prev|
    ensures |r| == |row|
  {
    seq<byte>(|row|, i requires 0 <= i < |row| => Minus(row[i], Predicted(f, Left(row, i, bpp), prev[i], Left(prev, i, bpp))))
  }

  /* -------- In place -------- */

  predicate Undone(f: Filter, line: seq<byte>, raw: seq<byte>, prev: seq<byte>, bpp: nat, n: nat) {
    && |line| == |raw| == |prev| && n <= |raw|
    && line[..n] == Unfilter(f, raw, prev, bpp, n) && line[n..] == raw[n..]
  }

  lemma OneMore(f: Filter, line: seq<byte>, raw: seq<byte>, prev: seq<byte>, bpp: nat, n: nat)
    requires Undone(f, line, raw, prev, bpp, n) && n < |raw|
    ensures line[n] == raw[n] && Left(line[..n], n, bpp) == if bpp > 0 && n >= bpp then line[n - bpp] else 0
    ensures Undone(f, line[n := Plus(line[n], Predicted(f, Left(line[..n], n, bpp), prev[n], Left(prev, n, bpp)))], raw, prev, bpp, n + 1)
  {
    hide Predicted, Plus;
    var r := Unfilter(f, raw, prev, bpp, n);
    assert line[n] == line[n..][0] == raw[n..][0] == raw[n];
    var x := Plus(raw[n], Predicted(f, Left(r, n, bpp), prev[n], Left(prev, n, bpp)));
    var next := line[n := x];
    assert next[..n + 1] == line[..n] + [x];
    assert next[n + 1..] == line[n..][1..] == raw[n..][1..] == raw[n + 1..];
  }

  // The first bytes of a row keep their filtered value under Sub, which the code leaves out of its loop.
  lemma SubStarts(raw: seq<byte>, prev: seq<byte>, bpp: nat, n: nat)
    requires |raw| == |prev| && n <= bpp && n <= |raw|
    ensures Undone(Sub, raw, raw, prev, bpp, n)
  {
    if n > 0 {
      SubStarts(raw, prev, bpp, n - 1);
      OneMore(Sub, raw, raw, prev, bpp, n - 1);
      assert raw[n - 1 := raw[n - 1]] == raw;
    }
  }

  method UnfilterRow(f: Filter, line: array<byte>, prev: seq<byte>, bpp: nat)
    requires bpp > 0 && |prev| == line.Length
    modifies line
    ensures line[..] == Unfilter(f, old(line[..]), prev, bpp, line.Length)
  {
    hide Unfilter, Undone, Plus;
    ghost var raw := line[..];
    Untouched(f, raw, prev, bpp);
    match f
    case Unfiltered => Unchanged(raw, prev, bpp, line.Length); Done(f, line[..], raw, prev, bpp);
    case Sub =>
      SubStarts(raw, prev, bpp, if bpp <= line.Length then bpp else line.Length);
      var i := bpp;
      while i < line.Length
        invariant bpp <= i && Undone(f, line[..], raw, prev, bpp, if i <= line.Length then i else line.Length)
      {
        OneMore(f, line[..], raw, prev, bpp, i);
        line[i] := Plus(line[i], line[i - bpp]);
        i := i + 1;
      }
      Done(f, line[..], raw, prev, bpp);
    case Up =>
      for i := 0 to line.Length
        invariant Undone(f, line[..], raw, prev, bpp, i)
      {
        OneMore(f, line[..], raw, prev, bpp, i);
        line[i] := Plus(line[i], prev[i]);
      }
      Done(f, line[..], raw, prev, bpp);
    case Average =>
      for i := 0 to line.Length
        invariant Undone(f, line[..], raw, prev, bpp, i)
      {
        OneMore(f, line[..], raw, prev, bpp, i);
        var left := if i >= bpp then line[i - bpp] else 0;
        line[i] := Plus(line[i], ((left as int) + (prev[i] as int)) / 2);
      }
      Done(f, line[..], raw, prev, bpp);
    case Paeth =>
      for i := 0 to line.Length
        invariant Undone(f, line[..], raw, prev, bpp, i)
      {
        OneMore(f, line[..], raw, prev, bpp, i);
        var a := if i >= bpp then line[i - bpp] else 0;
        var c := if i >= bpp then prev[i - bpp] else 0;
        line[i] := Plus(line[i], PaethPredictor(a, prev[i], c));
      }
      Done(f, line[..], raw, prev, bpp);
  }

  lemma Untouched(f: Filter, raw: seq<byte>, prev: seq<byte>, bpp: nat)
    requires |raw| == |prev|
    ensures Undone(f, raw, raw, prev, bpp, 0)
  {
  }

  lemma Done(f: Filter, line: seq<byte>, raw: seq<byte>, prev: seq<byte>, bpp: nat)
    requires Undone(f, line, raw, prev, bpp, |raw|)
    ensures line == Unfilter(f, raw, prev, bpp, |raw|)
  {
    assert line[..|raw|] == line;
  }

  lemma Unchanged(raw: seq<byte>, prev: seq<byte>, bpp: nat, n: nat)
    requires |raw| == |prev| && n <= |raw|
    ensures Undone(Unfiltered, raw, raw, prev, bpp, n)
  {
    if n > 0 {
      Unchanged(raw, prev, bpp, n - 1);
      OneMore(Unfiltered, raw, raw, prev, bpp, n - 1);
      assert raw[n - 1 := raw[n - 1]] == raw;
    }
  }

  /* -------- Inverses -------- */

  lemma PlusMinus(x: byte, y: byte)
    ensures Plus(Minus(x, y), y) == x && Minus(Plus(x, y), y) == x
  {
    MinusIs(x, y);
    PlusIs(x, y);
    PlusIs(Minus(x, y), y);
    MinusIs(Plus(x, y), y);
    hide Plus, Minus;
  }

  lemma PlusIs(x: byte, y: byte)
    ensures Plus(x, y) as int == if x + y < 256 then x + y else x + y - 256
  {
  }

  lemma MinusIs(x: byte, y: byte)
    ensures Minus(x, y) as int == if x >= y then x - y else x - y + 256
  {
  }

  // Unfiltering recovers every row from its filtered bytes.
  lemma {:induction false} UnfilterOfFiltered(f: Filter, row: seq<byte>, prev: seq<byte>, bpp: nat, n: nat)
    requires |row| == |prev| && n <= |row|
    ensures Unfilter(f, Filtered(f, row, prev, bpp), prev, bpp, n) == row[..n]
  {
    hide Plus, Minus, Predicted;
    if n > 0 {
      UnfilterOfFiltered(f, row, prev, bpp, n - 1);
      PlusMinus(row[n - 1], Predicted(f, Left(row, n - 1, bpp), prev[n - 1], Left(prev, n - 1, bpp)));
    }
  }

  lemma {:induction false} UnfilterAt(f: Filter, raw: seq<byte>, prev: seq<byte>, bpp: nat, n: nat, i: nat)
    requires |raw| == |prev| && i < n <= |raw|
    ensures var r := Unfilter(f, raw, prev, bpp, n);
      r[..i] == Unfilter(f, raw, prev, bpp, i)
      && r[i] == Plus(raw[i], Predicted(f, Left(r, i, bpp), prev[i], Left(prev, i, bpp)))
  {
    hide Plus, Predicted;
    var r, s := Unfilter(f, raw, prev, bpp, n), Unfilter(f, raw, prev, bpp, n - 1);
    if i < n - 1 {
      UnfilterAt(f, raw, prev, bpp, n - 1, i);
      assert r[..i] == s[..i];
    } else {
      assert r[..i] == s;
    }
  }

  // And filtering recovers the bytes: no two byte strings unfilter to one row.
  lemma FilteredOfUnfilter(f: Filter, raw: seq<byte>, prev: seq<byte>, bpp: nat)
    requires |raw| == |prev|
    ensures Filtered(f, Unfilter(f, raw, prev, bpp, |raw|), prev, bpp) == raw
  {
    hide Plus, Minus, Predicted;
    var r := Unfilter(f, raw, prev, bpp, |raw|);
    forall i: nat | i < |raw| ensures Filtered(f, r, prev, bpp)[i] == raw[i] {
      UnfilterAt(f, raw, prev, bpp, |raw|, i);
      PlusMinus(raw[i], Predicted(f, Left(r, i, bpp), prev[i], Left(prev, i, bpp)));
    }
  }

  // What section 9 of the PNG specification takes from a byte: nothing, the byte to its left, the one above, the mean of the
  // two rounded down, or the nearest of the three neighbours.
  predicate Specified(f: Filter, x: byte, a: byte, b: byte, c: byte) {
    match f
    case Unfiltered => x == 0
    case Sub => x == a
    case Up => x == b
    case Average => a + b - 1 <= 2 * x <= a + b
    case Paeth => Nearest(x, a, b, c)
  }

  lemma FilteredByte(f: Filter, row: seq<byte>, prev: seq<byte>, bpp: nat, i: nat, x: byte)
    requires |row| == |prev| && i < |row| && bpp > 0
    requires Specified(f, x, if i < bpp then 0 else row[i - bpp], prev[i], if i < bpp then 0 else prev[i - bpp])
    ensures (Filtered(f, row, prev, bpp)[i] + x) % 256 == row[i] as int
  {
    var a, b, c := if i < bpp then 0 else row[i - bpp], prev[i], if i < bpp then 0 else prev[i - bpp];
    PaethIsNearest(a, b, c, x);
    hide Nearest, PaethPredictor, Minus;
    assert x == Predicted(f, a, b, c);
    MinusIs(row[i], x);
  }

  /* -------- Images -------- */

  datatype Row = Row(filter: Filter, raw: seq<byte>)

  // The rows of an image, each against the one before it.
  function Image(rows: seq<Row>, prev: seq<byte>, bpp: nat): seq<seq<byte>>
    requires forall i | 0 <= i < |rows| :: |rows[i].raw| == |prev|
    decreases |rows|
  {
    if rows == [] then [] else
      var line := Unfilter(rows[0].filter, rows[0].raw, prev, bpp, |prev|);
      [line] + Image(rows[1..], line, bpp)
  }

  function Encoded(filters: seq<Filter>, lines: seq<seq<byte>>, prev: seq<byte>, bpp: nat): (rows: seq<Row>)
    requires |filters| == |lines| && forall i | 0 <= i < |lines| :: |lines[i]| == |prev|
    ensures |rows| == |lines| && forall i | 0 <= i < |rows| :: |rows[i].raw| == |prev|
    decreases |lines|
  {
    if lines == [] then [] else
      [Row(filters[0], Filtered(filters[0], lines[0], prev, bpp))] + Encoded(filters[1..], lines[1..], lines[0], bpp)
  }

  // Whatever filter an encoder chose for each row, the image comes back.
  lemma {:induction false} ImageRoundTrip(filters: seq<Filter>, lines: seq<seq<byte>>, prev: seq<byte>, bpp: nat)
    requires |filters| == |lines| && forall i | 0 <= i < |lines| :: |lines[i]| == |prev|
    ensures Image(Encoded(filters, lines, prev, bpp), prev, bpp) == lines
    decreases |lines|
  {
    hide Unfilter, Filtered;
    if lines != [] {
      UnfilterOfFiltered(filters[0], lines[0], prev, bpp, |prev|);
      assert lines[0][..|prev|] == lines[0];
      ImageRoundTrip(filters[1..], lines[1..], lines[0], bpp);
      assert Encoded(filters, lines, prev, bpp)[1..] == Encoded(filters[1..], lines[1..], lines[0], bpp);
      assert lines == [lines[0]] + lines[1..];
    }
  }

  function LineBefore(lines: seq<seq<byte>>, prev: seq<byte>): seq<byte> {
    if lines == [] then prev else lines[|lines| - 1]
  }

  lemma {:induction false} ImageSnoc(rows: seq<Row>, r: Row, prev: seq<byte>, bpp: nat)
    requires |r.raw| == |prev| && forall i | 0 <= i < |rows| :: |rows[i].raw| == |prev|
    ensures |LineBefore(Image(rows, prev, bpp), prev)| == |prev|
    ensures Image(rows + [r], prev, bpp)
         == Image(rows, prev, bpp) + [Unfilter(r.filter, r.raw, LineBefore(Image(rows, prev, bpp), prev), bpp, |prev|)]
    decreases |rows|
  {
    hide Unfilter;
    if rows == [] {
      assert [] + [r] == [r];
      assert [r][1..] == [];
    } else {
      var line := Unfilter(rows[0].filter, rows[0].raw, prev, bpp, |prev|);
      ImageSnoc(rows[1..], r, line, bpp);
      assert (rows + [r])[1..] == rows[1..] + [r];
      assert LineBefore([line] + Image(rows[1..], line, bpp), prev) == LineBefore(Image(rows[1..], line, bpp), line);
    }
  }

  // The rows of the inflated data in turn, the first against a row of zeros.
  method UnfilterImage(rows: seq<Row>, stride: nat, bpp: nat) returns (out: seq<seq<byte>>)
    requires bpp > 0 && forall i | 0 <= i < |rows| :: |rows[i].raw| == stride
    ensures out == Image(rows, Zeros(stride), bpp)
  {
    hide Unfilter, Image;
    out := [];
    var prev := Zeros(stride);
    assert Image([], prev, bpp) == [] by {
      NoRows(prev, bpp);
    }
    for y := 0 to |rows|
      invariant out == Image(rows[..y], Zeros(stride), bpp)
      invariant prev == LineBefore(out, Zeros(stride)) && |prev| == stride
    {
      var r := rows[y];
      ImageSnoc(rows[..y], r, Zeros(stride), bpp);
      assert rows[..y] + [r] == rows[..y + 1];
      var line := new byte[stride](i requires 0 <= i < stride => r.raw[i]);
      assert line[..] == r.raw;
      UnfilterRow(r.filter, line, prev, bpp);
      prev := line[..];
      out := out + [prev];
    }
    assert rows[..|rows|] == rows;
  }

  lemma NoRows(prev: seq<byte>, bpp: nat)
    ensures Image([], prev, bpp) == []
  {
  }
}
