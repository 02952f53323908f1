/** The two SQLite text functions the codepoint queries use: `REPLACE(X, Y, Z)`
    and `LOWER(X)`, over characters. */
module SqlText {

  /** `pat` occurs in `s` starting at index `i`. */
  predicate MatchAt(s: string, i: nat, pat: string)
  {
    i + |pat| <= |s| && s[i..i + |pat|] == pat
  }

  /** SQLite `REPLACE(s, pat, rep)`: every occurrence of `pat`, found left to
      right without overlaps, is replaced by `rep`; an empty `pat` leaves `s`
      unchanged. */
  function Replace(s: string, pat: string, rep: string): string
    decreases |s|
  {
    if |pat| == 0 || |s| < |pat| then s
    else if s[..|pat|] == pat then rep + Replace(s[|pat|..], pat, rep)
    else [s[0]] + Replace(s[1..], pat, rep)
  }

  /** SQLite `LOWER` without the ICU extension: ASCII letters only. */
  function LowerChar(c: char): (d: char)
  {
    if 'A' <= c <= 'Z' then (c as int - 'A' as int + 'a' as int) as char else c
  }

  function Lower(s: string): (r: string)
    ensures |r| == |s|
  {
    seq(|s|, i requires 0 <= i < |s| => LowerChar(s[i]))
  }

  /** Lowering leaves no upper-case ASCII letter, changes nothing but letters,
      and is idempotent. */
  lemma LowerMeaning(s: string)
    ensures forall i :: 0 <= i < |s| ==> !('A' <= Lower(s)[i] <= 'Z')
    ensures forall i :: 0 <= i < |s| && !('A' <= s[i] <= 'Z') ==> Lower(s)[i] == s[i]
    ensures Lower(Lower(s)) == Lower(s)
  {
  }

  lemma LowerAppend(a: string, b: string)
    ensures Lower(a + b) == Lower(a) + Lower(b)
  {
  }

  /** When no occurrence of `pat` starts inside the prefix `a`, replacing in
      `a + b` keeps `a` and replaces in `b` only. */
  lemma {:induction false} ReplaceKeepsPrefix(a: string, b: string, pat: string, rep: string)
    requires forall i :: 0 <= i < |a| ==> !MatchAt(a + b, i, pat)
    ensures Replace(a + b, pat, rep) == a + Replace(b, pat, rep)
    decreases |a|
  {
    if |a| == 0 {
      assert a + b == b;
    } else if |pat| == 0 {
    } else if |a + b| < |pat| {
      assert |b| < |pat|;
    } else {
      assert !MatchAt(a + b, 0, pat);
      ReplaceNoMatchAtHead(a, b, pat, rep);
      NoMatchInTail(a, b, pat);
      ReplaceKeepsPrefix(a[1..], b, pat, rep);
      ConsAppend(a, Replace(b, pat, rep));
    }
  }

  lemma ConsAppend(a: string, t: string)
    requires |a| > 0
    ensures [a[0]] + (a[1..] + t) == a + t
  {
    assert a == [a[0]] + a[1..];
  }

  /** Without a match at the start, the first character is kept. */
  lemma ReplaceNoMatchAtHead(a: string, b: string, pat: string, rep: string)
    requires |a| > 0 && |pat| > 0 && !MatchAt(a + b, 0, pat)
    ensures Replace(a + b, pat, rep) == [a[0]] + Replace(a[1..] + b, pat, rep)
  {
    var s := a + b;
    assert s[1..] == a[1..] + b;
  }

  /** Dropping the first character of the prefix keeps it free of matches. */
  lemma NoMatchInTail(a: string, b: string, pat: string)
    requires |a| > 0
    requires forall i :: 0 <= i < |a| ==> !MatchAt(a + b, i, pat)
    ensures forall i :: 0 <= i < |a[1..]| ==> !MatchAt(a[1..] + b, i, pat)
  {
    var s := a + b;
    forall i | 0 <= i < |a[1..]|
      ensures !MatchAt(a[1..] + b, i, pat)
    {
      assert !MatchAt(s, i + 1, pat);
      if i + |pat| <= |a[1..] + b| {
        assert (a[1..] + b)[i..i + |pat|] == s[i + 1..i + 1 + |pat|];
      }
    }
  }

  /** A string in which `pat` never occurs is left unchanged. */
  lemma ReplaceAbsent(s: string, pat: string, rep: string)
    requires forall i :: 0 <= i < |s| ==> !MatchAt(s, i, pat)
    ensures Replace(s, pat, rep) == s
  {
    assert s + [] == s;
    ReplaceKeepsPrefix(s, [], pat, rep);
  }

  /** A leading occurrence is replaced. */
  lemma ReplaceHead(b: string, pat: string, rep: string)
    requires |pat| > 0
    ensures Replace(pat + b, pat, rep) == rep + Replace(b, pat, rep)
  {
    assert (pat + b)[..|pat|] == pat;
    assert (pat + b)[|pat|..] == b;
  }

  /** No occurrence of a one-character pattern can straddle a split point,
      so replacing it distributes over concatenation. */
  lemma {:induction false} ReplaceCharAppend(a: string, b: string, c: char, rep: string)
    ensures Replace(a + b, [c], rep) == Replace(a, [c], rep) + Replace(b, [c], rep)
    decreases |a|
  {
    if |a| == 0 {
      assert a + b == b;
    } else {
      assert (a + b)[1..] == a[1..] + b;
      ReplaceCharAppend(a[1..], b, c, rep);
    }
  }

  /** The number of occurrences of `c` in `s`. */
  function Count(s: string, c: char): nat
  {
    multiset(s)[c]
  }

  /** `REPLACE(s, 'c', '')` deletes every `c`: none is left, every other
      character keeps its number of occurrences, and the length drops by the
      number of deleted characters. */
  lemma {:induction false} DeleteChar(s: string, c: char)
    ensures c !in Replace(s, [c], "")
    ensures forall x :: x != c ==> multiset(Replace(s, [c], ""))[x] == multiset(s)[x]
    ensures |Replace(s, [c], "")| == |s| - Count(s, c)
    decreases |s|
  {
    if |s| == 0 {
    } else {
      DeleteChar(s[1..], c);
      DeleteCharHead(s, c);
      var rest := Replace(s[1..], [c], "");
      if s[0] != c {
        assert multiset([s[0]] + rest) == multiset{s[0]} + multiset(rest);
      }
    }
  }

  /** One step of the deletion: the first character goes when it is `c`. */
  lemma DeleteCharHead(s: string, c: char)
    requires |s| > 0
    ensures Replace(s, [c], "") == if s[0] == c then Replace(s[1..], [c], "") else [s[0]] + Replace(s[1..], [c], "")
    ensures multiset(s) == multiset{s[0]} + multiset(s[1..])
  {
    assert s == [s[0]] + s[1..];
    assert s[..1] == [s[0]];
  }
}
