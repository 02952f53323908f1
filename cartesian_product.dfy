/** `cartesian_product(arrays)`: every combination of one entry from each
    array, one row per combination, in row-major order (the last array
    varies fastest); and the 125-colour cloud built from it. */
module CartesianProduct {
  import opened Wrappers

  /** The number of combinations: the product of the sizes. */
  function Count(sizes: seq<nat>): nat
  {
    if |sizes| == 0 then 1 else Count(sizes[..|sizes| - 1]) * sizes[|sizes| - 1]
  }

  function Sizes<T>(arrays: seq<seq<T>>): (sizes: seq<nat>)
    ensures |sizes| == |arrays| && forall i :: 0 <= i < |arrays| ==> sizes[i] == |arrays[i]|
  {
    seq(|arrays|, i requires 0 <= i < |arrays| => |arrays[i]|)
  }

  lemma DivBound(f: nat, a: nat, b: nat)
    requires f < a * b
    ensures b > 0 && f / b < a
  {
  }

  /** The index tuple of row `f`: its mixed-radix digits, last digit
      fastest. */
  function Coords(f: nat, sizes: seq<nat>): (c: seq<nat>)
    requires f < Count(sizes)
    ensures |c| == |sizes| && forall i :: 0 <= i < |c| ==> c[i] < sizes[i]
    decreases |sizes|
  {
    if |sizes| == 0 then []
    else
      var n := |sizes| - 1;
      DivBound(f, Count(sizes[..n]), sizes[n]);
      Coords(f / sizes[n], sizes[..n]) + [f % sizes[n]]
  }

  predicate ValidCoords(c: seq<nat>, sizes: seq<nat>)
  {
    |c| == |sizes| && forall i :: 0 <= i < |c| ==> c[i] < sizes[i]
  }

  /** The row of an index tuple. */
  function Flat(c: seq<nat>, sizes: seq<nat>): nat
    requires |c| == |sizes|
  {
    if |c| == 0 then 0
    else
      var n := |c| - 1;
      Flat(c[..n], sizes[..n]) * sizes[n] + c[n]
  }

  lemma {:induction false} FlatBound(c: seq<nat>, sizes: seq<nat>)
    requires ValidCoords(c, sizes)
    ensures Flat(c, sizes) < Count(sizes)
  {
    if |c| > 0 {
      var n := |c| - 1;
      FlatBound(c[..n], sizes[..n]);
      var q, s := Flat(c[..n], sizes[..n]), sizes[n];
      assert q * s + c[n] < (q + 1) * s;
      assert (q + 1) * s <= Count(sizes[..n]) * s;
    }
  }

  lemma {:induction false} FlatCoords(f: nat, sizes: seq<nat>)
    requires f < Count(sizes)
    ensures Flat(Coords(f, sizes), sizes) == f
    decreases |sizes|
  {
    if |sizes| > 0 {
      var n := |sizes| - 1;
      DivBound(f, Count(sizes[..n]), sizes[n]);
      FlatCoords(f / sizes[n], sizes[..n]);
      var c := Coords(f, sizes);
      assert c[..n] == Coords(f / sizes[n], sizes[..n]);
      assert f == (f / sizes[n]) * sizes[n] + f % sizes[n];
    }
  }

  lemma {:induction false} MulAtLeast(s: int, t: int)
    requires s >= 0 && t >= 1
    ensures s * t >= s
    decreases t
  {
    if t > 1 {
      MulAtLeast(s, t - 1);
      assert s * t == s * (t - 1) + s;
    }
  }

  lemma MulDistrib(a: int, b: int, s: int)
    ensures a * s - b * s == (a - b) * s
  {
  }

  /** Euclidean quotient and remainder are unique. */
  lemma Unique(a: int, r: int, a': int, r': int, s: int)
    requires 0 <= r < s && 0 <= r' < s && a * s + r == a' * s + r'
    ensures a == a' && r == r'
  {
    MulDistrib(a, a', s);
    if a > a' {
      MulAtLeast(s, a - a');
    } else if a < a' {
      MulDistrib(a', a, s);
      MulAtLeast(s, a' - a);
    }
  }

  lemma DivModOf(q: int, s: int, r: int)
    requires q >= 0 && 0 <= r < s
    ensures (q * s + r) / s == q && (q * s + r) % s == r
  {
    var x := q * s + r;
    assert x == (x / s) * s + x % s;
    Unique(q, r, x / s, x % s, s);
  }

  lemma {:induction false} CoordsFlat(c: seq<nat>, sizes: seq<nat>)
    requires ValidCoords(c, sizes)
    ensures Flat(c, sizes) < Count(sizes) && Coords(Flat(c, sizes), sizes) == c
  {
    FlatBound(c, sizes);
    if |c| > 0 {
      var n := |c| - 1;
      CoordsFlat(c[..n], sizes[..n]);
      var q, x := Flat(c[..n], sizes[..n]), Flat(c, sizes);
      DivModOf(q, sizes[n], c[n]);
      assert x / sizes[n] == q && x % sizes[n] == c[n];
      assert Coords(x, sizes) == Coords(q, sizes[..n]) + [c[n]];
      assert c == c[..n] + [c[n]];
    }
  }

  /** Row `f` of the leading combinations extended by the last array:
      leading combination `f / |last|` followed by entry `f % |last|`. */
  function ExtendedRow<T>(front: seq<seq<T>>, last: seq<T>, k: nat, f: nat): (row: seq<T>)
    requires forall g :: 0 <= g < |front| ==> |front[g]| == k
    requires f < |front| * |last|
    ensures |row| == k + 1
  {
    DivBound(f, |front|, |last|);
    front[f / |last|] + [last[f % |last|]]
  }

  /** The reference definition: the combinations of the leading arrays, each
      extended by every entry of the last array in turn. */
  function Product<T>(arrays: seq<seq<T>>): (p: seq<seq<T>>)
    ensures |p| == Count(Sizes(arrays))
    ensures forall f :: 0 <= f < |p| ==> |p[f]| == |arrays|
    decreases |arrays|
  {
    if |arrays| == 0 then [[]]
    else
      var n := |arrays| - 1;
      var front := Product(arrays[..n]);
      var last := arrays[n];
      var sizes := Sizes(arrays);
      assert Sizes(arrays[..n]) == sizes[..n];
      seq(|front| * |last|, f requires 0 <= f < |front| * |last| => ExtendedRow(front, last, n, f))
  }

  /** Row `f`, column `i` of the product is the entry of array `i` at digit
      `i` of `f`. */
  lemma {:induction false} ProductAt<T>(arrays: seq<seq<T>>, f: nat, i: nat)
    requires f < Count(Sizes(arrays)) && i < |arrays|
    ensures Product(arrays)[f][i] == arrays[i][Coords(f, Sizes(arrays))[i]]
    decreases |arrays|
  {
    var n := |arrays| - 1;
    var q := ProductRow(arrays, f);
    if i < n {
      ProductAt(arrays[..n], q, i);
      assert arrays[..n][i] == arrays[i];
    }
  }

  /** Row `f` of the product, in terms of the product of the leading arrays
      and the digits of `f`. */
  lemma ProductRow<T>(arrays: seq<seq<T>>, f: nat) returns (q: nat)
    requires |arrays| > 0 && f < Count(Sizes(arrays))
    ensures var n := |arrays| - 1;
            var last := arrays[n];
            && |last| > 0 && q == f / |last|
            && q < |Product(arrays[..n])| && q < Count(Sizes(arrays[..n]))
            && Product(arrays)[f] == Product(arrays[..n])[q] + [last[f % |last|]]
            && Coords(f, Sizes(arrays)) == Coords(q, Sizes(arrays[..n])) + [f % |last|]
  {
    var n := |arrays| - 1;
    var sizes := Sizes(arrays);
    assert Sizes(arrays[..n]) == sizes[..n];
    DivBound(f, |Product(arrays[..n])|, |arrays[n]|);
    q := f / |arrays[n]|;
  }

  /** Each index tuple is the tuple of exactly one row, `Flat(c)`. */
  lemma CombinationRow<T>(arrays: seq<seq<T>>, c: seq<nat>)
    requires ValidCoords(c, Sizes(arrays))
    ensures Flat(c, Sizes(arrays)) < |Product(arrays)|
    ensures forall i :: 0 <= i < |arrays| ==> Product(arrays)[Flat(c, Sizes(arrays))][i] == arrays[i][c[i]]
    ensures forall f :: 0 <= f < |Product(arrays)| && Coords(f, Sizes(arrays)) == c ==> f == Flat(c, Sizes(arrays))
  {
    var sizes := Sizes(arrays);
    CoordsFlat(c, sizes);
    forall i | 0 <= i < |arrays|
      ensures Product(arrays)[Flat(c, sizes)][i] == arrays[i][c[i]]
    {
      ProductAt(arrays, Flat(c, sizes), i);
    }
    forall f | 0 <= f < |Product(arrays)| && Coords(f, sizes) == c
      ensures f == Flat(c, sizes)
    {
      FlatCoords(f, sizes);
    }
  }

  predicate Distinct<T(==)>(s: seq<T>)
  {
    forall a, b :: 0 <= a < b < |s| ==> s[a] != s[b]
  }

  lemma SeqDiffer<T>(a: seq<T>, b: seq<T>)
    requires a != b && |a| == |b|
    ensures exists i :: 0 <= i < |a| && a[i] != b[i]
  {
  }

  /** Two rows with different indices differ in the entry of some array
      when no array repeats an entry. */
  lemma RowsDiffer<T>(arrays: seq<seq<T>>, f: nat, g: nat)
    requires forall i :: 0 <= i < |arrays| ==> Distinct(arrays[i])
    requires f < g < Count(Sizes(arrays))
    ensures Product(arrays)[f] != Product(arrays)[g]
  {
    var sizes := Sizes(arrays);
    var cf, cg := Coords(f, sizes), Coords(g, sizes);
    FlatCoords(f, sizes);
    FlatCoords(g, sizes);
    assert cf != cg;
    SeqDiffer(cf, cg);
    var i :| 0 <= i < |arrays| && cf[i] != cg[i];
    ProductAt(arrays, f, i);
    ProductAt(arrays, g, i);
    var a := arrays[i];
    if cf[i] < cg[i] {
      assert a[cf[i]] != a[cg[i]];
    } else {
      assert a[cg[i]] != a[cf[i]];
    }
  }

  /** When no array repeats an entry, no combination appears twice. */
  lemma ProductDistinct<T>(arrays: seq<seq<T>>)
    requires forall i :: 0 <= i < |arrays| ==> Distinct(arrays[i])
    ensures Distinct(Product(arrays))
  {
    forall f, g | 0 <= f < g < |Product(arrays)|
      ensures Product(arrays)[f] != Product(arrays)[g]
    {
      RowsDiffer(arrays, f, g);
    }
  }

  /** Row-major order: stepping to the next row advances the last digit
      while it has room, leaving the other digits alone. */
  lemma LastVariesFastest(sizes: seq<nat>, f: nat)
    requires |sizes| > 0 && f + 1 < Count(sizes)
    requires Coords(f, sizes)[|sizes| - 1] + 1 < sizes[|sizes| - 1]
    ensures var n := |sizes| - 1;
            Coords(f + 1, sizes) == Coords(f, sizes)[n := Coords(f, sizes)[n] + 1]
  {
    var n := |sizes| - 1;
    var s := sizes[n];
    var q, r := f / s, f % s;
    assert f == q * s + r;
    DivModOf(q, s, r + 1);
  }

  /** The error numpy raises for an empty list of arrays. */
  datatype ProductError = NoArrays

  /** `arr[i, ...] = a` for the `i`-th grid of `np.ix_`: entry `(i, f)`
      becomes array `i`'s entry at digit `i` of `f`; other rows keep their
      values. */
  method FillRow<T>(arr: array2<T>, arrays: seq<seq<T>>, i: nat)
    requires arr.Length0 == |arrays| && arr.Length1 == Count(Sizes(arrays)) && i < |arrays|
    modifies arr
    ensures forall f :: 0 <= f < arr.Length1 ==> arr[i, f] == arrays[i][Coords(f, Sizes(arrays))[i]]
    ensures forall i', f :: 0 <= i' < arr.Length0 && i' != i && 0 <= f < arr.Length1 ==> arr[i', f] == old(arr[i', f])
  {
    var sizes := Sizes(arrays);
    for f := 0 to arr.Length1
      invariant forall f' :: 0 <= f' < f ==> arr[i, f'] == arrays[i][Coords(f', sizes)[i]]
      invariant forall i', f' :: 0 <= i' < arr.Length0 && i' != i && 0 <= f' < arr.Length1 ==> arr[i', f'] == old(arr[i', f'])
    {
      arr[i, f] := arrays[i][Coords(f, sizes)[i]];
    }
  }

  /** `cartesian_product`: a `k x N` array is filled one input array at a
      time, then read back transposed, one row per combination. */
  method CartesianProductOf<T(0)>(arrays: seq<seq<T>>) returns (r: Result<seq<seq<T>>, ProductError>)
    ensures r.Failure? <==> |arrays| == 0
    ensures r.Success? ==> r.value == Product(arrays)
  {
    if |arrays| == 0 {
      return Failure(NoArrays);
    }
    var sizes := Sizes(arrays);
    var total := Count(sizes);
    var k := |arrays|;
    var arr := new T[k, total];
    for i := 0 to k
      invariant forall i', f :: 0 <= i' < i && 0 <= f < total ==> arr[i', f] == arrays[i'][Coords(f, sizes)[i']]
    {
      FillRow(arr, arrays, i);
    }
    var rows := seq(total, f requires 0 <= f < total reads arr =>
                  seq(k, i requires 0 <= i < k reads arr => arr[i, f]));
    var p := Product(arrays);
    forall f | 0 <= f < total
      ensures rows[f] == p[f]
    {
      forall i | 0 <= i < k
        ensures rows[f][i] == p[f][i]
      {
        ProductAt(arrays, f, i);
      }
    }
    return Success(rows);
  }

  /** `np.linspace(0, 255, 5, dtype=np.uint8)`: five evenly spaced shades,
      truncated to integers. */
  function Shades(): (s: seq<nat>)
    ensures s == [0, 63, 127, 191, 255]
  {
    seq(5, i requires 0 <= i < 5 => 255 * i / 4)
  }

  /** `cartesian_product([shades] * 3)`. */
  function ColourCloud(): seq<seq<nat>>
  {
    Product([Shades(), Shades(), Shades()])
  }

  /** Three arrays of five shades give 125 combinations. */
  lemma CloudCount()
    ensures Sizes([Shades(), Shades(), Shades()]) == [5, 5, 5]
    ensures Count([5, 5, 5]) == 125
  {
    var sizes: seq<nat> := [5, 5, 5];
    assert sizes[..2] == [5, 5] && [5, 5][..1] == [5] && [5][..0] == [];
    assert Count([5]) == 5 && Count([5, 5]) == 25;
  }

  /** The digits of row `f` in base 5. */
  lemma CloudCoords(f: nat)
    requires f < 125
    ensures f < Count([5, 5, 5]) && Coords(f, [5, 5, 5]) == [f / 25, (f / 5) % 5, f % 5]
  {
    CloudCount();
    var sizes: seq<nat> := [5, 5, 5];
    assert sizes[..2] == [5, 5] && [5, 5][..1] == [5];
    assert f / 5 / 5 == f / 25 && f / 25 < 5;
    assert Coords(f / 25, [5]) == [f / 25];
    assert Coords(f / 5, [5, 5]) == [f / 25, (f / 5) % 5];
  }

  /** Colour `f` of the cloud, from the base-5 digits of `f`. */
  lemma CloudColour(f: nat)
    requires f < 125
    ensures f < |ColourCloud()| && ColourCloud()[f] == [Shades()[f / 25], Shades()[(f / 5) % 5], Shades()[f % 5]]
  {
    var arrays := [Shades(), Shades(), Shades()];
    CloudCount();
    CloudCoords(f);
    ProductAt(arrays, f, 0);
    ProductAt(arrays, f, 1);
    ProductAt(arrays, f, 2);
  }

  /** The cloud holds 125 distinct colours of three channels, colour `f`
      taking its red, green and blue shades from the base-5 digits of `f`. */
  lemma ColourCloudFacts()
    ensures |ColourCloud()| == 125
    ensures Distinct(ColourCloud())
    ensures forall f :: 0 <= f < 125 ==>
              ColourCloud()[f] == [Shades()[f / 25], Shades()[(f / 5) % 5], Shades()[f % 5]]
  {
    CloudCount();
    ProductDistinct([Shades(), Shades(), Shades()]);
    forall f | 0 <= f < 125
      ensures ColourCloud()[f] == [Shades()[f / 25], Shades()[(f / 5) % 5], Shades()[f % 5]]
    {
      CloudColour(f);
    }
  }
}
