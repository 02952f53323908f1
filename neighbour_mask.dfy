/** `get_neighbour_mask`: convolve an integer image with an all-ones square
    kernel, reflecting at the borders, and mark the pixels whose sum reaches
    the kernel's maximum. */
module NeighbourMask {
  import opened PySeq

  /** A 2-D integer array: a sequence of rows. */
  type Grid = seq<seq<int>>

  predicate Rectangular<T>(g: seq<seq<T>>, width: nat)
  {
    forall i :: 0 <= i < |g| ==> |g[i]| == width
  }

  /** A sum of terms that are each at most `m` is at most `|xs| * m`, and
      reaches it exactly when every term equals `m`. */
  lemma {:induction false} SumAtMost(xs: seq<int>, m: int)
    requires forall i :: 0 <= i < |xs| ==> xs[i] <= m
    ensures Sum(xs) <= |xs| * m
    ensures Sum(xs) == |xs| * m <==> forall i :: 0 <= i < |xs| ==> xs[i] == m
  {
    if |xs| > 0 {
      var rest := xs[1..];
      assert forall i :: 0 <= i < |rest| ==> rest[i] == xs[i + 1];
      SumAtMost(rest, m);
      assert |xs| * m == m + |rest| * m;
      if forall i :: 0 <= i < |rest| ==> rest[i] == m {
        if xs[0] == m {
          assert forall i :: 0 <= i < |xs| ==> xs[i] == m by {
            forall i | 0 <= i < |xs|
              ensures xs[i] == m
            {
              if i > 0 {
                assert xs[i] == rest[i - 1];
              }
            }
          }
        }
      }
    }
  }

  /** scipy's `reflect` border mode: the array is extended by mirror images
      of itself that include the edge pixel (`d c b a | a b c d | d c b a`),
      so position `-1 - p` reads pixel `p` and the pattern repeats every
      `2n` positions. */
  function Reflect(p: int, n: int): (r: int)
    requires n > 0
    ensures 0 <= r < n
    ensures 0 <= p < n ==> r == p
    decreases if p < 0 then -2 * p else p
  {
    if 0 <= p < n then p
    else if p < 0 then Reflect(-1 - p, n)
    else if p < 2 * n then 2 * n - 1 - p
    else Reflect(p - 2 * n, n)
  }

  /** The reflected extension repeats with period `2n`. */
  lemma {:induction false} ReflectPeriodic(p: int, n: int)
    requires n > 0
    ensures Reflect(p + 2 * n, n) == Reflect(p, n)
    decreases if p < 0 then -2 * p else p
  {
    if p < -2 * n {
      // p + 2n < 0 mirrors to -1 - p - 2n, which is p' + 2n for p' := -1 - p - 4n
      ReflectPeriodic(-1 - p - 2 * n, n);
    } else if p < 0 {
    }
  }

  /** The side of the kernel: `neighbour_dist` pixels on each side. */
  function Side(d: nat): nat
  {
    1 + 2 * d
  }

  /** `np.ones(np.repeat(1 + 2 * neighbour_dist, 2))`. */
  function OnesKernel(d: nat): (k: Grid)
    ensures |k| == Side(d) && Rectangular(k, Side(d))
    ensures forall a, b :: 0 <= a < |k| && 0 <= b < |k[a]| ==> k[a][b] == 1
  {
    seq(Side(d), _ => seq(Side(d), _ => 1))
  }

  /** `kernel.sum()`. */
  function KernelSum(k: Grid): int
  {
    Sum(seq(|k|, a requires 0 <= a < |k| => Sum(k[a])))
  }

  /** `kernel.sum() * max_val`. */
  function KernelMax(k: Grid, maxVal: int): int
  {
    KernelSum(k) * maxVal
  }

  /** The largest sum the kernel can produce is `side * side * max_val`. */
  lemma KernelMaxValue(d: nat, maxVal: int)
    ensures KernelMax(OnesKernel(d), maxVal) == Side(d) * Side(d) * maxVal
  {
    var k := OnesKernel(d);
    var s := Side(d);
    forall a | 0 <= a < s
      ensures Sum(k[a]) == s
    {
      SumAtMost(k[a], 1);
    }
    var rows := seq(|k|, a requires 0 <= a < |k| => Sum(k[a]));
    SumAtMost(rows, s);
  }

  /** A square kernel of odd side, as `convolve` receives it here. */
  predicate OddSquare(k: Grid)
  {
    Rectangular(k, |k|) && |k| % 2 == 1
  }

  /** The reflected `(2d+1) x (2d+1)` neighbourhood of pixel `(i, j)`:
      entry `(a, b)` is the pixel at offset `(a - d, b - d)`. */
  function Window(arr: Grid, width: nat, d: nat, i: nat, j: nat): (w: Grid)
    requires Rectangular(arr, width) && i < |arr| && j < width
    ensures |w| == Side(d) && Rectangular(w, Side(d))
  {
    seq(Side(d), a requires 0 <= a < Side(d) =>
      seq(Side(d), b requires 0 <= b < Side(d) => arr[Reflect(i - d + a, |arr|)][Reflect(j - d + b, width)]))
  }

  /** Kernel row `a` against a window; scipy's convolution mirrors the
      kernel around its centre, so weight `(a, b)` meets window entry
      `(s-1-a, s-1-b)`. */
  function RowTerms(k: Grid, w: Grid, a: nat): seq<int>
    requires OddSquare(k) && |w| == |k| && Rectangular(w, |k|) && a < |k|
  {
    seq(|k|, b requires 0 <= b < |k| => k[a][b] * w[|k| - 1 - a][|k| - 1 - b])
  }

  /** `convolve(arr, kernel)[i, j]`, exact on integers. */
  function ConvolveAt(arr: Grid, width: nat, k: Grid, i: nat, j: nat): int
    requires Rectangular(arr, width) && OddSquare(k)
    requires i < |arr| && j < width
  {
    var w := Window(arr, width, |k| / 2, i, j);
    Sum(seq(|k|, a requires 0 <= a < |k| => Sum(RowTerms(k, w, a))))
  }

  /** `get_neighbour_mask(arr, max_val, neighbour_dist)`: the mask has the
      shape of `arr`. */
  function GetNeighbourMask(arr: Grid, width: nat, maxVal: int, d: nat): (mask: seq<seq<bool>>)
    requires Rectangular(arr, width)
    ensures |mask| == |arr| && Rectangular(mask, width)
  {
    var k := OnesKernel(d);
    seq(|arr|, i requires 0 <= i < |arr| =>
      seq(width, j requires 0 <= j < width => ConvolveAt(arr, width, k, i, j) == KernelMax(k, maxVal)))
  }

  predicate AllEqual(w: Grid, v: int)
  {
    forall a, b :: 0 <= a < |w| && 0 <= b < |w[a]| ==> w[a][b] == v
  }

  predicate AtMost(arr: Grid, maxVal: int)
  {
    forall a, b :: 0 <= a < |arr| && 0 <= b < |arr[a]| ==> arr[a][b] <= maxVal
  }

  /** One row of the all-ones kernel against a window whose entries are at
      most `m`: the terms sum to at most `s * m`, reaching it exactly when
      the window row it meets is all `m`. */
  lemma RowMeaning(d: nat, w: Grid, m: int, a: nat)
    requires |w| == Side(d) && Rectangular(w, Side(d)) && AtMost(w, m) && a < Side(d)
    ensures var row := RowTerms(OnesKernel(d), w, a);
            var mirrored := w[Side(d) - 1 - a];
            && Sum(row) <= Side(d) * m
            && (Sum(row) == Side(d) * m <==> forall b :: 0 <= b < |mirrored| ==> mirrored[b] == m)
  {
    var k := OnesKernel(d);
    var s := Side(d);
    var row := RowTerms(k, w, a);
    var r := s - 1 - a;
    assert |w[r]| == s && |row| == s;
    forall b | 0 <= b < s
      ensures row[b] == w[r][s - 1 - b]
    {
      assert k[a][b] == 1;
    }
    SumAtMost(row, m);
    if forall b :: 0 <= b < s ==> row[b] == m {
      forall b | 0 <= b < s
        ensures w[r][b] == m
      {
        assert row[s - 1 - b] == m;
      }
    }
    if forall b :: 0 <= b < s ==> w[r][b] == m {
      forall b | 0 <= b < s
        ensures row[b] == m
      {
        assert w[r][s - 1 - b] == m;
      }
      assert |row| == s;
      assert Sum(row) == s * m;
    }
    assert w[Side(d) - 1 - a] == w[r];
  }

  lemma MulAssoc(a: int, b: int, c: int)
    ensures a * (b * c) == a * b * c
  {
  }

  /** The all-ones kernel against a window whose entries are at most `m`
      reaches `s * s * m` exactly when the whole window is `m`. */
  lemma WindowMeaning(d: nat, w: Grid, m: int)
    requires |w| == Side(d) && Rectangular(w, Side(d)) && AtMost(w, m)
    ensures var k := OnesKernel(d);
            (Sum(seq(|k|, a requires 0 <= a < |k| => Sum(RowTerms(k, w, a)))) == Side(d) * Side(d) * m
             <==> AllEqual(w, m))
  {
    var k := OnesKernel(d);
    var s := Side(d);
    var sums := seq(|k|, a requires 0 <= a < |k| => Sum(RowTerms(k, w, a)));
    forall a | 0 <= a < s
      ensures sums[a] <= s * m
      ensures sums[a] == s * m <==> RowAll(w[s - 1 - a], m)
    {
      RowMeaning(d, w, m, a);
    }
    SumAtMost(sums, s * m);
    MulAssoc(s, s, m);
    MirroredRowsFull(w, s, sums, s * m, m);
  }

  /** Every entry of `row` is `m`. */
  predicate RowAll(row: seq<int>, m: int)
  {
    forall b :: 0 <= b < |row| ==> row[b] == m
  }

  /** When each `sums[a]` hits `t` exactly when the mirrored row `s - 1 - a`
      is all `m`, every sum hits `t` exactly when the whole window is `m`. */
  lemma MirroredRowsFull(w: Grid, s: nat, sums: seq<int>, t: int, m: int)
    requires |w| == s && Rectangular(w, s) && |sums| == s
    requires forall a :: 0 <= a < s ==> (sums[a] == t <==> RowAll(w[s - 1 - a], m))
    ensures (forall a :: 0 <= a < s ==> sums[a] == t) <==> AllEqual(w, m)
  {
    if forall a :: 0 <= a < s ==> sums[a] == t {
      forall a, b | 0 <= a < s && 0 <= b < s
        ensures w[a][b] == m
      {
        assert sums[s - 1 - a] == t;
      }
    }
  }

  /** With every value at most `max_val` (as with the 0-255 alpha the script
      passes), a pixel of the mask is set exactly when every pixel of its
      reflected `(2d+1) x (2d+1)` window equals `max_val`. */
  lemma MaskMeaning(arr: Grid, width: nat, maxVal: int, d: nat, i: nat, j: nat)
    requires Rectangular(arr, width) && AtMost(arr, maxVal)
    requires i < |arr| && j < width
    ensures GetNeighbourMask(arr, width, maxVal, d)[i][j] <==> AllEqual(Window(arr, width, d, i, j), maxVal)
  {
    var k := OnesKernel(d);
    var w := Window(arr, width, d, i, j);
    assert |k| / 2 == d;
    forall a, b | 0 <= a < |w| && 0 <= b < |w[a]|
      ensures w[a][b] <= maxVal
    {
      var y, x := Reflect(i - d + a, |arr|), Reflect(j - d + b, width);
      assert w[a][b] == arr[y][x] && x < |arr[y]|;
    }
    WindowMeaning(d, w, maxVal);
    KernelMaxValue(d, maxVal);
  }

  /** An array that is `max_val` everywhere gives a mask that is set
      everywhere. */
  lemma AllMaxAllSet(arr: Grid, width: nat, maxVal: int, d: nat)
    requires Rectangular(arr, width) && AllEqual(arr, maxVal)
    ensures forall i, j :: 0 <= i < |arr| && 0 <= j < width ==> GetNeighbourMask(arr, width, maxVal, d)[i][j]
  {
    forall i, j | 0 <= i < |arr| && 0 <= j < width
      ensures GetNeighbourMask(arr, width, maxVal, d)[i][j]
    {
      var w := Window(arr, width, d, i, j);
      forall a, b | 0 <= a < |w| && 0 <= b < |w[a]|
        ensures w[a][b] == maxVal
      {
        var y, x := Reflect(i - d + a, |arr|), Reflect(j - d + b, width);
        assert w[a][b] == arr[y][x] && x < |arr[y]|;
      }
      MaskMeaning(arr, width, maxVal, d, i, j);
    }
  }

  /** A pixel below `max_val` is never set: it is the centre of its own
      window. */
  lemma BelowMaxUnset(arr: Grid, width: nat, maxVal: int, d: nat, i: nat, j: nat)
    requires Rectangular(arr, width) && AtMost(arr, maxVal)
    requires i < |arr| && j < width && arr[i][j] < maxVal
    ensures !GetNeighbourMask(arr, width, maxVal, d)[i][j]
  {
    MaskMeaning(arr, width, maxVal, d, i, j);
    var w := Window(arr, width, d, i, j);
    assert d < Side(d);
    assert w[d][d] == arr[Reflect(i - d + d, |arr|)][Reflect(j - d + d, width)];
    assert Reflect(i - d + d, |arr|) == i && Reflect(j - d + d, width) == j;
  }
}
