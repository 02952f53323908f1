/** Python's sequence primitives used by the scripts: slicing with a step of
    one (negative indices count from the end, out-of-range indices are
    clamped), `str.find` / `str.rfind` of a single character, and `sum`. */
module PySeq {

  /** Where a Python slice bound lands in a sequence of length `n`. */
  function SliceIndex(i: int, n: nat): (k: nat)
    ensures k <= n
    ensures 0 <= i <= n ==> k == i
    ensures -(n as int) <= i < 0 ==> k == n + i
    ensures i < -(n as int) ==> k == 0
    ensures n < i ==> k == n
  {
    if i < 0 then (if i + n < 0 then 0 else i + n)
    else if i > n then n
    else i
  }

  /** `s[start:stop]` in Python. */
  function Slice<T>(s: seq<T>, start: int, stop: int): (r: seq<T>)
    ensures 0 <= start <= stop <= |s| ==> r == s[start..stop]
    ensures |r| <= |s|
    ensures var lo, hi := SliceIndex(start, |s|), SliceIndex(stop, |s|);
            lo <= hi ==> r == s[lo..hi]
    ensures SliceIndex(stop, |s|) <= SliceIndex(start, |s|) ==> r == []
  {
    var lo, hi := SliceIndex(start, |s|), SliceIndex(stop, |s|);
    if lo < hi then s[lo..hi] else []
  }

  /** `s[start:]` in Python. */
  function SliceFrom<T>(s: seq<T>, start: int): (r: seq<T>)
    ensures 0 <= start <= |s| ==> r == s[start..]
    ensures |s| < start ==> r == []
    ensures start < 0 && -|s| <= start ==> r == s[|s| + start..]
  {
    Slice(s, start, |s|)
  }

  /** `s.find(c)`: the index of the first `c`, or -1 when there is none. */
  function Find<T(==)>(s: seq<T>, c: T): (r: int)
    ensures -1 <= r < |s|
    ensures r == -1 <==> c !in s
    ensures 0 <= r ==> s[r] == c && c !in s[..r]
  {
    if |s| == 0 then -1
    else if s[0] == c then 0
    else
      var k := Find(s[1..], c);
      assert s[1..][..if k < 0 then 0 else k] == s[1..1 + if k < 0 then 0 else k];
      if k < 0 then -1 else k + 1
  }

  /** `s.rfind(c)`: the index of the last `c`, or -1 when there is none. */
  function RFind<T(==)>(s: seq<T>, c: T): (r: int)
    ensures -1 <= r < |s|
    ensures r == -1 <==> c !in s
    ensures 0 <= r ==> s[r] == c && c !in s[r + 1..]
  {
    if |s| == 0 then -1
    else if s[|s| - 1] == c then |s| - 1
    else
      var init := s[..|s| - 1];
      var k := RFind(init, c);
      assert s == init + [s[|s| - 1]];
      assert 0 <= k ==> s[k + 1..] == init[k + 1..] + [s[|s| - 1]];
      k
  }

  /** The first occurrence in `s + t` of something already in `s` is its
      first occurrence in `s`; otherwise it is found in `t`, after `s`. */
  lemma {:induction false} FindAppend<T>(s: seq<T>, t: seq<T>, c: T)
    ensures c in s ==> Find(s + t, c) == Find(s, c)
    ensures c !in s && c in t ==> Find(s + t, c) == |s| + Find(t, c)
    decreases |s|
  {
    if |s| > 0 {
      assert (s + t)[1..] == s[1..] + t;
      FindAppend(s[1..], t, c);
    } else {
      assert s + t == t;
    }
  }

  /** `sum(xs)`. */
  function Sum(xs: seq<int>): int
  {
    if |xs| == 0 then 0 else xs[0] + Sum(xs[1..])
  }
}
