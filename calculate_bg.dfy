/** The per-image background choice of `osx/catalina/calculate_bg.py`: the
    colours of the semi-visible pixels are gathered, every colour of the
    cloud gets a record of its distances to them, and the colour with the
    greatest record is chosen. */
module CalculateBg {
  import opened Wrappers
  import opened PySeq
  import CartesianProduct

  datatype Rgba = Rgba(r: int, g: int, b: int, a: int)
  datatype Rgb = Rgb(r: int, g: int, b: int)

  /** `pixels[keep(pixels)]`: the pixels that pass, in order. */
  function KeepWhere(pixels: seq<Rgba>, keep: Rgba -> bool): (kept: seq<Rgba>)
    ensures |kept| <= |pixels|
    ensures forall p :: multiset(kept)[p] == if keep(p) then multiset(pixels)[p] else 0
  {
    if |pixels| == 0 then []
    else
      var rest := KeepWhere(pixels[1..], keep);
      assert pixels == [pixels[0]] + pixels[1..];
      if keep(pixels[0]) then [pixels[0]] + rest else rest
  }

  /** Keeping pixels that all pass changes nothing. */
  lemma {:induction false} KeepAll(pixels: seq<Rgba>, keep: Rgba -> bool)
    requires forall i :: 0 <= i < |pixels| ==> keep(pixels[i])
    ensures KeepWhere(pixels, keep) == pixels
  {
    if |pixels| > 0 {
      KeepAll(pixels[1..], keep);
    }
  }

  /** Lines 41-42: the visible pixels (alpha above 0), then those of them
      that are not opaque (alpha below 255). */
  function SemiVisible(pixels: seq<Rgba>): seq<Rgba>
  {
    KeepWhere(KeepWhere(pixels, (p: Rgba) => p.a > 0), (p: Rgba) => p.a < 255)
  }

  /** A pixel is kept, with all its copies, exactly when `0 < alpha < 255`. */
  lemma SemiVisibleMeaning(pixels: seq<Rgba>)
    ensures forall p :: multiset(SemiVisible(pixels))[p] == if 0 < p.a < 255 then multiset(pixels)[p] else 0
  {
    var visible := KeepWhere(pixels, (p: Rgba) => p.a > 0);
    assert forall p: Rgba :: multiset(visible)[p] == if p.a > 0 then multiset(pixels)[p] else 0;
  }

  predicate Sorted(xs: seq<int>)
  {
    forall i, j :: 0 <= i < j < |xs| ==> xs[i] <= xs[j]
  }

  /** Every element of a permutation of `x` and a sorted tail is at least the
      head when `x` is. */
  lemma HeadBelow(xs: seq<int>, rest: seq<int>, x: int)
    requires Sorted(xs) && |xs| > 0 && xs[0] <= x
    requires multiset(rest) == multiset(xs[1..]) + multiset{x}
    ensures forall i :: 0 <= i < |rest| ==> xs[0] <= rest[i]
  {
    forall i | 0 <= i < |rest|
      ensures xs[0] <= rest[i]
    {
      assert rest[i] in multiset(rest);
      if rest[i] != x {
        assert rest[i] in xs[1..];
        var k :| 0 <= k < |xs| - 1 && xs[1..][k] == rest[i];
        assert xs[k + 1] == rest[i];
      }
    }
  }

  function Insert(xs: seq<int>, x: int): (ys: seq<int>)
    requires Sorted(xs)
    ensures Sorted(ys) && multiset(ys) == multiset(xs) + multiset{x}
  {
    if |xs| == 0 then [x]
    else if x <= xs[0] then [x] + xs
    else
      var rest := Insert(xs[1..], x);
      assert xs == [xs[0]] + xs[1..];
      HeadBelow(xs, rest, x);
      [xs[0]] + rest
  }

  /** `np.sort` of one column: ascending, with the same entries. */
  function Sort(xs: seq<int>): (ys: seq<int>)
    ensures Sorted(ys) && multiset(ys) == multiset(xs)
  {
    if |xs| == 0 then []
    else
      assert xs == [xs[0]] + xs[1..];
      Insert(Sort(xs[1..]), xs[0])
  }

  function Reds(rows: seq<Rgb>): (col: seq<int>)
    ensures |col| == |rows|
  {
    seq(|rows|, i requires 0 <= i < |rows| => rows[i].r)
  }

  function Greens(rows: seq<Rgb>): (col: seq<int>)
    ensures |col| == |rows|
  {
    seq(|rows|, i requires 0 <= i < |rows| => rows[i].g)
  }

  function Blues(rows: seq<Rgb>): (col: seq<int>)
    ensures |col| == |rows|
  {
    seq(|rows|, i requires 0 <= i < |rows| => rows[i].b)
  }

  /** `np.sort(rgb, axis=0)`: each of the three columns is sorted on its own,
      so row `i` holds the `i`-th smallest red, green and blue values. */
  function SortColumns(rows: seq<Rgb>): (sorted: seq<Rgb>)
    ensures |sorted| == |rows|
  {
    var reds, greens, blues := Sort(Reds(rows)), Sort(Greens(rows)), Sort(Blues(rows));
    assert |multiset(reds)| == |rows| && |multiset(greens)| == |rows| && |multiset(blues)| == |rows|;
    seq(|rows|, i requires 0 <= i < |rows| => Rgb(reds[i], greens[i], blues[i]))
  }

  /** Each column of the result is its input column in ascending order, so
      the rows ascend in every channel at once. */
  lemma SortColumnsMeaning(rows: seq<Rgb>)
    ensures var sorted := SortColumns(rows);
            && Sorted(Reds(sorted)) && multiset(Reds(sorted)) == multiset(Reds(rows))
            && Sorted(Greens(sorted)) && multiset(Greens(sorted)) == multiset(Greens(rows))
            && Sorted(Blues(sorted)) && multiset(Blues(sorted)) == multiset(Blues(rows))
  {
    var sorted := SortColumns(rows);
    var reds, greens, blues := Sort(Reds(rows)), Sort(Greens(rows)), Sort(Blues(rows));
    assert |multiset(reds)| == |rows| && |multiset(greens)| == |rows| && |multiset(blues)| == |rows|;
    forall i | 0 <= i < |rows|
      ensures Reds(sorted)[i] == reds[i] && Greens(sorted)[i] == greens[i] && Blues(sorted)[i] == blues[i]
    {
    }
    assert Reds(sorted) == reds;
    assert Greens(sorted) == greens;
    assert Blues(sorted) == blues;
  }

  /** Row order of `np.unique(axis=0)`: lexicographic on (R, G, B). */
  predicate RgbLess(x: Rgb, y: Rgb)
  {
    x.r < y.r || (x.r == y.r && (x.g < y.g || (x.g == y.g && x.b < y.b)))
  }

  predicate StrictlySorted(rows: seq<Rgb>)
  {
    forall i, j :: 0 <= i < j < |rows| ==> RgbLess(rows[i], rows[j])
  }

  /** Every row of `rest` lies above the head of the strictly sorted `rows`
      when its rows come from the tail or are `x`, which lies above too. */
  lemma HeadLess(rows: seq<Rgb>, rest: seq<Rgb>, x: Rgb)
    requires StrictlySorted(rows) && |rows| > 0 && RgbLess(rows[0], x)
    requires forall y :: y in rest ==> y in rows[1..] || y == x
    ensures forall i :: 0 <= i < |rest| ==> RgbLess(rows[0], rest[i])
  {
    forall i | 0 <= i < |rest|
      ensures RgbLess(rows[0], rest[i])
    {
      assert rest[i] in rest;
      if rest[i] != x {
        var k :| 0 <= k < |rows| - 1 && rows[1..][k] == rest[i];
        assert rows[k + 1] == rest[i];
      }
    }
  }

  function InsertUnique(rows: seq<Rgb>, x: Rgb): (ys: seq<Rgb>)
    requires StrictlySorted(rows)
    ensures StrictlySorted(ys)
    ensures forall y :: y in ys <==> y in rows || y == x
  {
    if |rows| == 0 then [x]
    else if x == rows[0] then rows
    else if RgbLess(x, rows[0]) then [x] + rows
    else
      var rest := InsertUnique(rows[1..], x);
      assert forall y :: y in rows <==> y == rows[0] || y in rows[1..];
      HeadLess(rows, rest, x);
      [rows[0]] + rest
  }

  /** `np.unique(rows, axis=0)`: each distinct row once, in ascending
      lexicographic order. */
  function UniqueRows(rows: seq<Rgb>): (u: seq<Rgb>)
    ensures StrictlySorted(u)
    ensures forall y :: y in u <==> y in rows
  {
    if |rows| == 0 then []
    else
      assert forall y :: y in rows <==> y == rows[0] || y in rows[1..];
      InsertUnique(UniqueRows(rows[1..]), rows[0])
  }

  function ToRgb(p: Rgba): Rgb
  {
    Rgb(p.r, p.g, p.b)
  }

  function Colours(pixels: seq<Rgba>): (rows: seq<Rgb>)
    ensures |rows| == |pixels|
  {
    seq(|pixels|, i requires 0 <= i < |pixels| => ToRgb(pixels[i]))
  }

  /** Line 43: the unique rows of the column-sorted colours of the
      semi-visible pixels. */
  function SemiVisibleColours(pixels: seq<Rgba>): seq<Rgb>
  {
    UniqueRows(SortColumns(Colours(SemiVisible(pixels))))
  }

  /** `np.unique` leaves no row exactly when there was none. */
  lemma UniqueRowsEmpty(rows: seq<Rgb>)
    ensures |UniqueRows(rows)| == 0 <==> |rows| == 0
  {
    if |rows| > 0 {
      assert rows[0] in UniqueRows(rows);
    }
    if |UniqueRows(rows)| > 0 {
      assert UniqueRows(rows)[0] in rows;
    }
  }

  /** No pixel survives the alpha filters exactly when none is
      semi-visible. */
  lemma SemiVisibleEmpty(pixels: seq<Rgba>)
    ensures |SemiVisible(pixels)| == 0 <==> forall i :: 0 <= i < |pixels| ==> !(0 < pixels[i].a < 255)
  {
    var semi := SemiVisible(pixels);
    SemiVisibleMeaning(pixels);
    if i :| 0 <= i < |pixels| && 0 < pixels[i].a < 255 {
      assert multiset(semi)[pixels[i]] == multiset(pixels)[pixels[i]];
      assert pixels[i] in multiset(semi);
    }
    if |semi| > 0 {
      assert semi[0] in multiset(semi);
      assert semi[0] in multiset(pixels);
      assert semi[0] in pixels;
    }
  }

  /** There is a semi-visible colour exactly when some pixel is
      semi-visible. */
  lemma SemiVisibleColoursEmpty(pixels: seq<Rgba>)
    ensures |SemiVisibleColours(pixels)| == 0 <==> forall i :: 0 <= i < |pixels| ==> !(0 < pixels[i].a < 255)
  {
    var rows := SortColumns(Colours(SemiVisible(pixels)));
    UniqueRowsEmpty(rows);
    SemiVisibleEmpty(pixels);
  }

  /* The steps of `ColumnSortRecombinesChannels` below, one stage of line 43
     on one input each: kept apart so that each is evaluated on its own. */

  function SortPair(a: int, b: int): seq<int>
  {
    if a <= b then [a, b] else [b, a]
  }

  lemma SortTwo(a: int, b: int)
    ensures Sort([a, b]) == SortPair(a, b)
  {
    assert [a, b][1..] == [b];
    assert [b][1..] == [];
  }

  lemma ColumnsExample()
    ensures var rows := [Rgb(255, 0, 0), Rgb(0, 255, 0)];
            Reds(rows) == [255, 0] && Greens(rows) == [0, 255] && Blues(rows) == [0, 0]
  {
  }

  lemma SortColumnsExample()
    ensures SortColumns([Rgb(255, 0, 0), Rgb(0, 255, 0)]) == [Rgb(0, 0, 0), Rgb(255, 255, 0)]
  {
    ColumnsExample();
    SortTwo(255, 0);
    SortTwo(0, 255);
    SortTwo(0, 0);
  }

  lemma UniqueRowsExample()
    ensures UniqueRows([Rgb(0, 0, 0), Rgb(255, 255, 0)]) == [Rgb(0, 0, 0), Rgb(255, 255, 0)]
  {
    var sorted := [Rgb(0, 0, 0), Rgb(255, 255, 0)];
    assert sorted[1..] == [sorted[1]] && sorted[1..][1..] == [];
    assert UniqueRows(sorted[1..]) == [sorted[1]];
  }

  lemma SemiVisibleExample()
    ensures SemiVisible([Rgba(255, 0, 0, 128), Rgba(0, 255, 0, 128)]) == [Rgba(255, 0, 0, 128), Rgba(0, 255, 0, 128)]
  {
    var pixels := [Rgba(255, 0, 0, 128), Rgba(0, 255, 0, 128)];
    KeepAll(pixels, (p: Rgba) => p.a > 0);
    KeepAll(pixels, (p: Rgba) => p.a < 255);
  }

  lemma ColoursExample()
    ensures Colours([Rgba(255, 0, 0, 128), Rgba(0, 255, 0, 128)]) == [Rgb(255, 0, 0), Rgb(0, 255, 0)]
  {
  }

  /** Sorting the columns separately recombines channels: two
      semi-transparent pixels, pure red and pure green, yield black and
      yellow, neither of which is the colour of any pixel. */
  lemma ColumnSortRecombinesChannels()
    ensures SemiVisibleColours([Rgba(255, 0, 0, 128), Rgba(0, 255, 0, 128)]) == [Rgb(0, 0, 0), Rgb(255, 255, 0)]
  {
    SemiVisibleExample();
    ColoursExample();
    SortColumnsExample();
    UniqueRowsExample();
  }

  /** The distance record of a cloud colour: `()` while it coincides with a
      semi-visible colour, else the (min, max, mean) distance, each truncated
      to an integer. Python compares tuples so that `()` sorts before any
      triple and triples compare lexicographically. */
  datatype Record = Empty | Dists(min: int, max: int, mean: int)

  predicate RecordLess(x: Record, y: Record)
  {
    match (x, y)
    case (Empty, Dists(_, _, _)) => true
    case (Dists(a, b, c), Dists(a', b', c')) => a < a' || (a == a' && (b < b' || (b == b' && c < c')))
    case _ => false
  }

  /** Tuple comparison is a strict total order on records. */
  lemma RecordLessTotal(x: Record, y: Record, z: Record)
    ensures !RecordLess(x, x)
    ensures RecordLess(x, y) && RecordLess(y, z) ==> RecordLess(x, z)
    ensures x == y || RecordLess(x, y) || RecordLess(y, x)
  {
  }

  function Min(xs: seq<real>): (m: real)
    requires |xs| > 0
    ensures m in xs && forall x :: x in xs ==> m <= x
  {
    if |xs| == 1 then xs[0]
    else
      var rest := Min(xs[1..]);
      assert forall x :: x in xs ==> x == xs[0] || x in xs[1..];
      if xs[0] <= rest then xs[0] else rest
  }

  function Max(xs: seq<real>): (m: real)
    requires |xs| > 0
    ensures m in xs && forall x :: x in xs ==> x <= m
  {
    if |xs| == 1 then xs[0]
    else
      var rest := Max(xs[1..]);
      assert forall x :: x in xs ==> x == xs[0] || x in xs[1..];
      if xs[0] >= rest then xs[0] else rest
  }

  function SumReal(xs: seq<real>): real
  {
    if |xs| == 0 then 0.0 else xs[0] + SumReal(xs[1..])
  }

  /** `mean()`. */
  function Mean(xs: seq<real>): real
    requires |xs| > 0
  {
    SumReal(xs) / (|xs| as real)
  }

  lemma {:induction false} SumBetween(xs: seq<real>, lo: real, hi: real)
    requires forall x :: x in xs ==> lo <= x <= hi
    ensures (|xs| as real) * lo <= SumReal(xs) <= (|xs| as real) * hi
  {
    if |xs| > 0 {
      assert xs[0] in xs;
      assert forall x :: x in xs[1..] ==> x in xs;
      SumBetween(xs[1..], lo, hi);
      var m := (|xs| - 1) as real;
      assert (m + 1.0) * lo == m * lo + lo;
      assert (m + 1.0) * hi == m * hi + hi;
    }
  }

  lemma DivBetween(s: real, n: real, lo: real, hi: real)
    requires n > 0.0 && n * lo <= s <= n * hi
    ensures lo <= s / n <= hi
  {
  }

  /** A mean of values within bounds is within them too. */
  lemma MeanWithin(xs: seq<real>, lo: real, hi: real)
    requires |xs| > 0
    requires forall x :: x in xs ==> lo <= x <= hi
    ensures lo <= Mean(xs) <= hi
  {
    SumBetween(xs, lo, hi);
    DivBetween(SumReal(xs), |xs| as real, lo, hi);
  }

  /** The mean lies between the minimum and the maximum. */
  lemma MeanBetween(xs: seq<real>)
    requires |xs| > 0
    ensures Min(xs) <= Mean(xs) <= Max(xs)
  {
    MeanWithin(xs, Min(xs), Max(xs));
  }

  /** numpy's `astype(int)` on a float: truncation toward zero, which is
      the floor for the non-negative distances the script truncates. */
  function Trunc(x: real): (t: int)
    ensures x >= 0.0 ==> t == x.Floor
    ensures x >= 0.0 ==> t as real <= x < t as real + 1.0
    ensures x < 0.0 ==> t as real - 1.0 < x <= t as real
  {
    if x >= 0.0 then x.Floor else -((-x).Floor)
  }

  /** Truncation keeps the order of its arguments. */
  lemma TruncMonotone(x: real, y: real)
    requires x <= y
    ensures Trunc(x) <= Trunc(y)
  {
    if x < 0.0 && y >= 0.0 {
    } else if x >= 0.0 {
      assert Trunc(x) as real <= x <= y < Trunc(y) as real + 1.0;
    } else {
      assert Trunc(x) as real - 1.0 < x <= y <= Trunc(y) as real;
    }
  }

  /** Line 48: the distance from cloud colour `p` to each semi-visible
      colour. */
  function Distances(p: Rgb, semi: seq<Rgb>, dist: (Rgb, Rgb) -> real): (ds: seq<real>)
    ensures |ds| == |semi|
  {
    seq(|semi|, i requires 0 <= i < |semi| => dist(p, semi[i]))
  }

  lemma ZeroDistance(p: Rgb, semi: seq<Rgb>, dist: (Rgb, Rgb) -> real)
    ensures 0.0 in Distances(p, semi, dist) <==> exists q :: q in semi && dist(p, q) == 0.0
  {
    var ds := Distances(p, semi, dist);
    if 0.0 in ds {
      var i :| 0 <= i < |ds| && ds[i] == 0.0;
      assert semi[i] in semi;
    }
    if q :| q in semi && dist(p, q) == 0.0 {
      var i :| 0 <= i < |semi| && semi[i] == q;
      assert ds[i] == 0.0;
    }
  }

  /** The record a cloud colour ends with (lines 39 and 49-57). */
  function RecordOf(p: Rgb, semi: seq<Rgb>, dist: (Rgb, Rgb) -> real): (rec: Record)
    requires |semi| > 0
    ensures rec.Empty? <==> exists q :: q in semi && dist(p, q) == 0.0
  {
    var ds := Distances(p, semi, dist);
    ZeroDistance(p, semi, dist);
    if 0.0 in ds then Empty else Dists(Trunc(Min(ds)), Trunc(Max(ds)), Trunc(Mean(ds)))
  }

  /** A colour's record is empty or its truncated distances satisfy
      `min <= mean <= max`, whatever the sign of the distances. */
  lemma RecordOfOrdered(p: Rgb, semi: seq<Rgb>, dist: (Rgb, Rgb) -> real)
    requires |semi| > 0
    ensures var rec := RecordOf(p, semi, dist);
            rec.Dists? ==> rec.min <= rec.mean <= rec.max
  {
    var ds := Distances(p, semi, dist);
    MeanBetween(ds);
    TruncMonotone(Min(ds), Mean(ds));
    TruncMonotone(Mean(ds), Max(ds));
  }

  /** A colour whose channels fit in `uint8`, as every cloud colour and
      every pixel colour does. */
  predicate IsByteColour(c: Rgb)
  {
    0 <= c.r < 256 && 0 <= c.g < 256 && 0 <= c.b < 256
  }

  /** `v1 - v2` of line 12 as written: both operands are `uint8` arrays, so
      each channel difference wraps modulo 256 before the norm is taken. */
  function WrappedDiff(p: Rgb, q: Rgb): Rgb
  {
    Rgb((p.r - q.r) % 256, (p.g - q.g) % 256, (p.b - q.b) % 256)
  }

  /** The channel differences the distance is meant to measure. */
  function Diff(p: Rgb, q: Rgb): Rgb
  {
    Rgb(p.r - q.r, p.g - q.g, p.b - q.b)
  }

  /** The square of the Euclidean norm. */
  function SquaredNorm(v: Rgb): int
  {
    v.r * v.r + v.g * v.g + v.b * v.b
  }

  lemma SquaredNormZero(v: Rgb)
    ensures SquaredNorm(v) >= 0
    ensures SquaredNorm(v) == 0 <==> v == Rgb(0, 0, 0)
  {
    assert v.r * v.r >= 0 && v.g * v.g >= 0 && v.b * v.b >= 0;
    if v.r != 0 {
      assert v.r * v.r > 0;
    }
    if v.g != 0 {
      assert v.g * v.g > 0;
    }
    if v.b != 0 {
      assert v.b * v.b > 0;
    }
  }

  /** With wrapped differences black lies next to white (squared distance
      3, not 195075) and the distance depends on the order of its
      arguments. */
  lemma WrappedDistanceCounterexample()
    ensures SquaredNorm(WrappedDiff(Rgb(0, 0, 0), Rgb(255, 255, 255))) == 3
    ensures SquaredNorm(WrappedDiff(Rgb(255, 255, 255), Rgb(0, 0, 0))) == 195075
    ensures SquaredNorm(Diff(Rgb(0, 0, 0), Rgb(255, 255, 255))) == 195075
  {
    assert WrappedDiff(Rgb(0, 0, 0), Rgb(255, 255, 255)) == Rgb(1, 1, 1);
    assert WrappedDiff(Rgb(255, 255, 255), Rgb(0, 0, 0)) == Rgb(255, 255, 255);
    assert Diff(Rgb(0, 0, 0), Rgb(255, 255, 255)) == Rgb(-255, -255, -255);
  }

  /** Wrapping never turns a difference into zero or a zero into anything
      else, so the `0 in distances` test of line 49 is unaffected. */
  lemma WrappedZeroExactly(p: Rgb, q: Rgb)
    requires IsByteColour(p) && IsByteColour(q)
    ensures WrappedDiff(p, q) == Rgb(0, 0, 0) <==> p == q
  {
  }

  /** `dist` is the Euclidean distance between the colours. */
  ghost predicate IsEuclidean(dist: (Rgb, Rgb) -> real)
  {
    forall p, q :: dist(p, q) >= 0.0 && dist(p, q) * dist(p, q) == SquaredNorm(Diff(p, q)) as real
  }

  lemma SquareMonotone(x: real, y: real)
    requires 0.0 <= x && 0.0 <= y
    ensures x < y ==> x * x < y * y
  {
    if x < y {
      assert y * y - x * y == y * (y - x) && y * (y - x) > 0.0;
      assert x * y - x * x == x * (y - x) && x * (y - x) >= 0.0;
    }
  }

  /** A non-negative square root is unique, and zero only for zero. */
  lemma SquareRoot(d: real, e: real, n: real)
    requires d >= 0.0 && e >= 0.0 && d * d == n && e * e == n
    ensures d == e
    ensures d == 0.0 <==> n == 0.0
  {
    SquareMonotone(d, e);
    SquareMonotone(e, d);
    SquareMonotone(0.0, d);
  }

  lemma SquaredNormNegate(v: Rgb)
    ensures SquaredNorm(Rgb(-v.r, -v.g, -v.b)) == SquaredNorm(v)
  {
    assert (-v.r) * (-v.r) == v.r * v.r;
    assert (-v.g) * (-v.g) == v.g * v.g;
    assert (-v.b) * (-v.b) == v.b * v.b;
  }

  lemma EuclideanAt(dist: (Rgb, Rgb) -> real, p: Rgb, q: Rgb)
    requires IsEuclidean(dist)
    ensures dist(p, q) >= 0.0 && dist(p, q) * dist(p, q) == SquaredNorm(Diff(p, q)) as real
  {
  }

  /** The Euclidean distance is zero exactly between equal colours and does
      not depend on the order of its arguments. */
  lemma EuclideanDistance(dist: (Rgb, Rgb) -> real, p: Rgb, q: Rgb)
    requires IsEuclidean(dist)
    ensures dist(p, q) == 0.0 <==> p == q
    ensures dist(p, q) == dist(q, p)
  {
    var v := Diff(p, q);
    EuclideanAt(dist, p, q);
    EuclideanAt(dist, q, p);
    assert Diff(q, p) == Rgb(-v.r, -v.g, -v.b);
    SquaredNormNegate(v);
    SquareRoot(dist(p, q), dist(q, p), SquaredNorm(v) as real);
    SquaredNormZero(v);
  }

  /** With the Euclidean distance a cloud colour keeps the record `()`
      exactly when it is one of the semi-visible colours. */
  lemma EmptyRecordMeansSeen(p: Rgb, semi: seq<Rgb>, dist: (Rgb, Rgb) -> real)
    requires |semi| > 0 && IsEuclidean(dist)
    ensures RecordOf(p, semi, dist).Empty? <==> p in semi
  {
    EuclideanDistance(dist, p, p);
    forall q | q in semi && dist(p, q) == 0.0
      ensures q == p
    {
      EuclideanDistance(dist, p, q);
    }
  }

  /** `sorted(items, key=record)[-1]`: Python's sort is stable, so the last
      item is the latest of those with the greatest record. */
  function LastMax(records: seq<Record>): (i: nat)
    requires |records| > 0
    ensures i < |records|
    ensures forall j :: 0 <= j < |records| ==> !RecordLess(records[i], records[j])
    ensures forall j :: i < j < |records| ==> RecordLess(records[j], records[i])
  {
    if |records| == 1 then 0
    else
      var n := |records| - 1;
      var k := LastMax(records[..n]);
      assert forall j :: 0 <= j < n ==> records[..n][j] == records[j];
      if RecordLess(records[n], records[k]) then k
      else n
  }

  /** The dict's keys: each colour at its first occurrence. */
  function Keys(cloud: seq<Rgb>): (keys: seq<Rgb>)
    ensures forall c :: c in keys <==> c in cloud
  {
    if |cloud| == 0 then []
    else
      var n := |cloud| - 1;
      var keys := Keys(cloud[..n]);
      assert forall c :: c in cloud <==> c in cloud[..n] || c == cloud[n];
      if cloud[n] in keys then keys else keys + [cloud[n]]
  }

  /** The keys come in the order of their first occurrence in the cloud. */
  lemma {:induction false} KeysOrder(cloud: seq<Rgb>)
    ensures forall a, b :: 0 <= a < b < |Keys(cloud)| ==> Find(cloud, Keys(cloud)[a]) < Find(cloud, Keys(cloud)[b])
  {
    if |cloud| > 0 {
      var n := |cloud| - 1;
      var front, x := cloud[..n], cloud[n];
      KeysOrder(front);
      var old_keys, keys := Keys(front), Keys(cloud);
      assert cloud == front + [x];
      assert keys == old_keys || (keys == old_keys + [x] && x !in front);
      forall a, b | 0 <= a < b < |keys|
        ensures Find(cloud, keys[a]) < Find(cloud, keys[b])
      {
        assert keys[a] == old_keys[a] && old_keys[a] in old_keys;
        FindLast(front, x, keys[a]);
        FindLast(front, x, keys[b]);
        if b < |old_keys| {
          assert keys[b] == old_keys[b] && old_keys[b] in old_keys;
        }
      }
    }
  }

  /** Appending a colour leaves the first occurrences of earlier colours
      where they were; a new colour is first found at the end. */
  lemma FindLast(front: seq<Rgb>, x: Rgb, c: Rgb)
    ensures c in front ==> Find(front + [x], c) == Find(front, c) < |front|
    ensures c !in front && c == x ==> Find(front + [x], c) == |front|
  {
    FindAppend(front, [x], c);
    if c !in front && c == x {
      assert Find([x], c) == 0;
    }
  }

  /** Why no background could be chosen. */
  datatype BgError =
    | EmptyDistances    // `min()` of the empty distance array: no semi-visible pixel
    | NoColours         // `list(...)[-1]` of an empty cloud
    | UnpackEmptyRecord // the chosen record is `()`: every colour coincides with a pixel

  /** The colour stored for the image with its distances. */
  datatype Background = Background(colour: Rgb, minDist: int, maxDist: int, meanDist: int)

  /** Line 39: every cloud colour starts with the record `()`; the keys keep
      the order in which the colours were first inserted. */
  method InitialRecords(cloud: seq<Rgb>) returns (keys: seq<Rgb>, recorded: map<Rgb, Record>)
    ensures keys == Keys(cloud)
    ensures recorded.Keys == set p | p in cloud
    ensures forall p :: p in recorded ==> recorded[p] == Empty
  {
    keys, recorded := [], map[];
    for n := 0 to |cloud|
      invariant keys == Keys(cloud[..n])
      invariant recorded.Keys == set p | p in cloud[..n]
      invariant forall p :: p in recorded ==> recorded[p] == Empty
    {
      assert cloud[..n + 1][..n] == cloud[..n];
      assert cloud[..n + 1] == cloud[..n] + [cloud[n]];
      if cloud[n] !in recorded {
        keys := keys + [cloud[n]];
      }
      recorded := recorded[cloud[n] := Empty];
    }
    assert cloud[..|cloud|] == cloud;
  }

  /** Lines 46-57: each cloud colour's record is replaced by its distances
      unless one of them is zero; with no semi-visible colour the first
      `min()` raises. */
  method RecordDistances(cloud: seq<Rgb>, semi: seq<Rgb>, dist: (Rgb, Rgb) -> real, recorded: map<Rgb, Record>)
    returns (r: Result<map<Rgb, Record>, BgError>)
    requires recorded.Keys == set p | p in cloud
    requires forall p :: p in recorded ==> recorded[p] == Empty
    ensures r.Failure? <==> |cloud| > 0 && |semi| == 0
    ensures r.Failure? ==> r.error == EmptyDistances
    ensures r.Success? ==> r.value.Keys == set p | p in cloud
    ensures r.Success? ==> forall p :: p in r.value ==> |semi| > 0 && r.value[p] == RecordOf(p, semi, dist)
  {
    if |cloud| > 0 && |semi| == 0 {
      return Failure(EmptyDistances);
    }
    var updated := recorded;
    for n := 0 to |cloud|
      invariant updated.Keys == set p | p in cloud
      invariant forall p :: p in updated ==> updated[p] == if p in cloud[..n] then RecordOf(p, semi, dist) else Empty
    {
      var p := cloud[n];
      var ds := Distances(p, semi, dist);
      if 0.0 !in ds {
        updated := updated[p := Dists(Trunc(Min(ds)), Trunc(Max(ds)), Trunc(Mean(ds)))];
      }
      assert cloud[..n + 1] == cloud[..n] + [p];
    }
    assert cloud[..|cloud|] == cloud;
    return Success(updated);
  }

  /** The records of the keys, in the dict's order. */
  function RecordsOf(keys: seq<Rgb>, semi: seq<Rgb>, dist: (Rgb, Rgb) -> real): (records: seq<Record>)
    requires |semi| > 0
    ensures |records| == |keys|
    ensures forall j :: 0 <= j < |keys| ==> records[j] == RecordOf(keys[j], semi, dist)
  {
    seq(|keys|, j requires 0 <= j < |keys| => RecordOf(keys[j], semi, dist))
  }

  /** Lines 60-62 over the whole cloud: the chosen record is `()` only when
      every record is; otherwise no colour has a greater record and every
      colour first seen later has a smaller one. */
  lemma LastMaxOverCloud(cloud: seq<Rgb>, semi: seq<Rgb>, dist: (Rgb, Rgb) -> real)
    requires |cloud| > 0 && |semi| > 0
    ensures var keys := Keys(cloud);
            var i := LastMax(RecordsOf(keys, semi, dist));
            var best := RecordOf(keys[i], semi, dist);
            && (best.Empty? <==> forall p :: p in cloud ==> RecordOf(p, semi, dist).Empty?)
            && (forall q :: q in cloud ==> !RecordLess(best, RecordOf(q, semi, dist)))
            && (forall q :: q in cloud && Find(cloud, keys[i]) < Find(cloud, q) ==> RecordLess(RecordOf(q, semi, dist), best))
  {
    var keys := Keys(cloud);
    var records := RecordsOf(keys, semi, dist);
    assert cloud[0] in keys;
    var i := LastMax(records);
    var best := records[i];
    forall q | q in cloud
      ensures !RecordLess(best, RecordOf(q, semi, dist))
      ensures Find(cloud, keys[i]) < Find(cloud, q) ==> RecordLess(RecordOf(q, semi, dist), best)
    {
      var j :| 0 <= j < |keys| && keys[j] == q;
      assert records[j] == RecordOf(q, semi, dist);
      if Find(cloud, keys[i]) < Find(cloud, q) {
        LaterKeyLaterIndex(cloud, i, j);
      }
    }
    assert keys[i] in cloud;
  }

  /** A key first seen later in the cloud sits later among the keys. */
  lemma LaterKeyLaterIndex(cloud: seq<Rgb>, i: nat, j: nat)
    requires i < |Keys(cloud)| && j < |Keys(cloud)|
    requires Find(cloud, Keys(cloud)[i]) < Find(cloud, Keys(cloud)[j])
    ensures i < j
  {
    KeysOrder(cloud);
  }

  /** One image of the script's main loop: build the records, then pick the
      colour whose record sorts last. */
  method ChooseBackground(cloud: seq<Rgb>, pixels: seq<Rgba>, dist: (Rgb, Rgb) -> real)
    returns (result: Result<Background, BgError>)
    ensures result == Failure(NoColours) <==> |cloud| == 0
    ensures result == Failure(EmptyDistances) <==> |cloud| > 0 && |SemiVisibleColours(pixels)| == 0
    ensures result == Failure(UnpackEmptyRecord) <==>
              |cloud| > 0 && |SemiVisibleColours(pixels)| > 0 &&
              forall p :: p in cloud ==> RecordOf(p, SemiVisibleColours(pixels), dist).Empty?
    ensures result.Success? ==>
              var semi := SemiVisibleColours(pixels);
              var c := result.value.colour;
              && c in cloud && |semi| > 0
              && RecordOf(c, semi, dist) == Dists(result.value.minDist, result.value.maxDist, result.value.meanDist)
              && (forall q :: q in cloud ==> !RecordLess(RecordOf(c, semi, dist), RecordOf(q, semi, dist)))
              && (forall q :: q in cloud && Find(cloud, c) < Find(cloud, q) ==>
                    RecordLess(RecordOf(q, semi, dist), RecordOf(c, semi, dist)))
  {
    var semi := SemiVisibleColours(pixels);
    result := PickBackground(cloud, semi, dist);
  }

  /** The main loop's work once the semi-visible colours `semi` are known. */
  method PickBackground(cloud: seq<Rgb>, semi: seq<Rgb>, dist: (Rgb, Rgb) -> real)
    returns (result: Result<Background, BgError>)
    ensures result == Failure(NoColours) <==> |cloud| == 0
    ensures result == Failure(EmptyDistances) <==> |cloud| > 0 && |semi| == 0
    ensures result == Failure(UnpackEmptyRecord) <==>
              |cloud| > 0 && |semi| > 0 && forall p :: p in cloud ==> RecordOf(p, semi, dist).Empty?
    ensures result.Success? ==>
              var c := result.value.colour;
              && c in cloud && |semi| > 0
              && RecordOf(c, semi, dist) == Dists(result.value.minDist, result.value.maxDist, result.value.meanDist)
              && (forall q :: q in cloud ==> !RecordLess(RecordOf(c, semi, dist), RecordOf(q, semi, dist)))
              && (forall q :: q in cloud && Find(cloud, c) < Find(cloud, q) ==>
                    RecordLess(RecordOf(q, semi, dist), RecordOf(c, semi, dist)))
  {
    var keys, recorded := InitialRecords(cloud);
    var distances := RecordDistances(cloud, semi, dist, recorded);
    if distances.Failure? {
      return Failure(EmptyDistances);
    }
    recorded := distances.value;
    assert |cloud| > 0 ==> cloud[0] in keys;
    if |keys| == 0 {
      return Failure(NoColours);
    }
    var records := seq(|keys|, j requires 0 <= j < |keys| => recorded[keys[j]]);
    assert records == RecordsOf(keys, semi, dist);
    var i := LastMax(records);
    LastMaxOverCloud(cloud, semi, dist);
    if records[i].Empty? {
      return Failure(UnpackEmptyRecord);
    }
    var c := keys[i];
    result := Success(Background(c, records[i].min, records[i].max, records[i].mean));
  }


  // ---------------------------------------------------------------------
  // The colour cloud of lines 26-27 as the colours the loop chooses from.

  /** `tuple(rgb)` of each row of a product of three arrays. */
  function AsColours(rows: seq<seq<nat>>): (colours: seq<Rgb>)
    requires forall f :: 0 <= f < |rows| ==> |rows[f]| == 3
    ensures |colours| == |rows|
    ensures forall f :: 0 <= f < |rows| ==> colours[f] == Rgb(rows[f][0], rows[f][1], rows[f][2])
  {
    seq(|rows|, f requires 0 <= f < |rows| => Rgb(rows[f][0], rows[f][1], rows[f][2]))
  }

  /** The 125 colours of `colour_cloud`, in the order of the product. */
  function CloudColours(): (cloud: seq<Rgb>)
    ensures |cloud| == 125
    ensures forall f :: 0 <= f < 125 ==>
              cloud[f] == Rgb(CartesianProduct.Shades()[f / 25], CartesianProduct.Shades()[(f / 5) % 5], CartesianProduct.Shades()[f % 5])
  {
    CartesianProduct.ColourCloudFacts();
    AsColours(CartesianProduct.ColourCloud())
  }

  predicate IsShade(v: int)
  {
    v == 0 || v == 63 || v == 127 || v == 191 || v == 255
  }

  /** Every cloud colour is a triple of shades. */
  lemma CloudColoursAreShades(c: Rgb)
    requires c in CloudColours()
    ensures IsShade(c.r) && IsShade(c.g) && IsShade(c.b)
  {
    var f :| 0 <= f < 125 && CloudColours()[f] == c;
    var i, j, k := f / 25, (f / 5) % 5, f % 5;
    assert i < 5 && j < 5 && k < 5;
    assert c == Rgb(CartesianProduct.Shades()[i], CartesianProduct.Shades()[j], CartesianProduct.Shades()[k]);
    ShadeAt(i);
    ShadeAt(j);
    ShadeAt(k);
  }

  lemma ShadeAt(i: nat)
    requires i < 5
    ensures IsShade(CartesianProduct.Shades()[i])
  {
  }

  /** Every triple of shades is a cloud colour: shade indices `(i, j, k)`
      give colour `25 * i + 5 * j + k`. */
  lemma ShadesAreCloudColours(i: nat, j: nat, k: nat)
    requires i < 5 && j < 5 && k < 5
    ensures var s := CartesianProduct.Shades();
            25 * i + 5 * j + k < 125 && CloudColours()[25 * i + 5 * j + k] == Rgb(s[i], s[j], s[k])
  {
    var f := 25 * i + 5 * j + k;
    assert f / 25 == i;
    assert f / 5 == 5 * i + j;
    assert (f / 5) % 5 == j;
    assert f % 5 == k;
  }

  /** One image of the main loop, with the cloud `cartesian_product` builds
      from the five shades (lines 26-27): it never lacks colours, and a chosen
      background is a shade triple whose record no cloud colour exceeds. */
  method ImageBackground(pixels: seq<Rgba>, dist: (Rgb, Rgb) -> real)
    returns (result: Result<Background, BgError>)
    ensures result != Failure(NoColours)
    ensures result == Failure(EmptyDistances) <==> |SemiVisibleColours(pixels)| == 0
    ensures result == Failure(UnpackEmptyRecord) <==>
              |SemiVisibleColours(pixels)| > 0 &&
              forall p :: p in CloudColours() ==> RecordOf(p, SemiVisibleColours(pixels), dist).Empty?
    ensures result.Success? ==>
              var semi := SemiVisibleColours(pixels);
              var c := result.value.colour;
              && c in CloudColours() && |semi| > 0
              && IsShade(c.r) && IsShade(c.g) && IsShade(c.b)
              && RecordOf(c, semi, dist) == Dists(result.value.minDist, result.value.maxDist, result.value.meanDist)
              && (forall q :: q in CloudColours() ==> !RecordLess(RecordOf(c, semi, dist), RecordOf(q, semi, dist)))
  {
    var shades := CartesianProduct.Shades();
    var product := CartesianProduct.CartesianProductOf([shades, shades, shades]);
    CartesianProduct.ColourCloudFacts();
    var cloud := AsColours(product.value);
    assert cloud == CloudColours();
    result := ChooseBackground(cloud, pixels, dist);
    if result.Success? {
      CloudColoursAreShades(result.value.colour);
    }
  }
}
