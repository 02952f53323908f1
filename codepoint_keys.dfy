/** The codepoint passes of join_hash_tables.py: a macOS glyph's codepoint
    part (such as `u1F343_u200D`) is rewritten into an Emojipedia-style
    codepoint (`1f343-200d`) and compared against the `codepoint` column,
    trying four SQL queries in a fixed order and taking the first row the
    first successful query returns. */
module CodepointKeys {
  import opened SqlText
  import opened Wrappers
  import opened EmojiTables

  /** The four queries, in the order they are tried. */
  datatype Pass = Plain | SkinTone | Joiner | JoinerSkinTone

  /** The position of a pass in the order of the queries. */
  function Rank(p: Pass): nat
  {
    match p
    case Plain => 0
    case SkinTone => 1
    case Joiner => 2
    case JoinerSkinTone => 3
  }

  /** What `_u` becomes: a plain hyphen, or a zero width joiner `-200d-`. */
  function Separator(p: Pass): string
  {
    if p == Plain || p == SkinTone then "-" else "-200d-"
  }

  predicate UsesSkinToneSuffix(p: Pass)
  {
    p == SkinTone || p == JoinerSkinTone
  }

  /** `LOWER(REPLACE(REPLACE(?, "_u", sep), "u", ""))` */
  function LookupKey(part: string, sep: string): string
  {
    Lower(Replace(Replace(part, "_u", sep), "u", ""))
  }

  /** `REPLACE(codepoint || ".0", "-fe0f.0", ".0")` */
  function SkinToneCodepoint(cp: string): string
  {
    Replace(cp + ".0", "-fe0f.0", ".0")
  }

  /** The `WHERE` condition of pass `p` on a row with codepoint `cp`. */
  predicate PassMatches(p: Pass, part: string, cp: string)
  {
    LookupKey(part, Separator(p)) == if UsesSkinToneSuffix(p) then SkinToneCodepoint(cp) else cp
  }

  /** `fetchone()` of one query: the first row (in table order) that satisfies
      the condition, or nothing. */
  function FetchOne(rows: seq<EjpRow>, p: Pass, part: string): (r: Option<nat>)
    ensures r.None? <==> forall i :: 0 <= i < |rows| ==> !PassMatches(p, part, rows[i].codepoint)
    ensures r.Some? ==> r.value < |rows| && PassMatches(p, part, rows[r.value].codepoint)
    ensures r.Some? ==> forall j :: 0 <= j < r.value ==> !PassMatches(p, part, rows[j].codepoint)
  {
    if |rows| == 0 then None
    else if PassMatches(p, part, rows[0].codepoint) then Some(0)
    else
      match FetchOne(rows[1..], p, part)
      case None => None
      case Some(k) =>
        assert forall j :: 0 < j <= k ==> rows[j] == rows[1..][j - 1];
        Some(k + 1)
  }

  /** A codepoint hit: the pass that found it and the row it returned. */
  datatype Hit = Hit(pass: Pass, row: nat)

  /** The four queries tried in order; the first one that returns a row wins
      and the later ones are not run. */
  function CodepointHit(part: string, rows: seq<EjpRow>): (r: Option<Hit>)
    ensures r.Some? ==> r.value.row < |rows|
  {
    match FetchOne(rows, Plain, part)
    case Some(i) => Some(Hit(Plain, i))
    case None =>
      match FetchOne(rows, SkinTone, part)
      case Some(i) => Some(Hit(SkinTone, i))
      case None =>
        match FetchOne(rows, Joiner, part)
        case Some(i) => Some(Hit(Joiner, i))
        case None =>
          match FetchOne(rows, JoinerSkinTone, part)
          case Some(i) => Some(Hit(JoinerSkinTone, i))
          case None => None
  }

  /** A hit is the first row matched by the first pass that matches any row:
      no row satisfies an earlier pass, and no earlier row satisfies this
      one; there is no hit only when no pass matches any row. */
  lemma CodepointHitIsFirst(part: string, rows: seq<EjpRow>)
    ensures var r := CodepointHit(part, rows);
            && (r.None? <==> forall p: Pass, i :: 0 <= i < |rows| ==> !PassMatches(p, part, rows[i].codepoint))
            && (r.Some? ==> r.value.row < |rows| && PassMatches(r.value.pass, part, rows[r.value.row].codepoint))
            && (r.Some? ==> forall j :: 0 <= j < r.value.row ==> !PassMatches(r.value.pass, part, rows[j].codepoint))
            && (r.Some? ==> forall q: Pass, i :: Rank(q) < Rank(r.value.pass) && 0 <= i < |rows| ==>
                              !PassMatches(q, part, rows[i].codepoint))
  {
    var _ := FetchOne(rows, Plain, part);
    var _ := FetchOne(rows, SkinTone, part);
    var _ := FetchOne(rows, Joiner, part);
    var _ := FetchOne(rows, JoinerSkinTone, part);
  }

  // ---------------------------------------------------------------------
  // What the rewrite means for macOS names built from codepoints.

  /** The macOS name of a sequence of codepoints: `u` before the first one and
      `_u` before each later one, e.g. `u1F343_u200D`. */
  function MacName(cps: seq<string>): string
    requires |cps| > 0
  {
    "u" + cps[0] + MacTail(cps[1..])
  }

  function MacTail(cps: seq<string>): string
  {
    if |cps| == 0 then "" else "_u" + cps[0] + MacTail(cps[1..])
  }

  /** Codepoints joined by `sep`, as the Emojipedia codepoint column has them. */
  function Joined(cps: seq<string>, sep: string): string
    requires |cps| > 0
  {
    cps[0] + JoinTail(cps[1..], sep)
  }

  function JoinTail(cps: seq<string>, sep: string): string
  {
    if |cps| == 0 then "" else sep + cps[0] + JoinTail(cps[1..], sep)
  }

  /** Every codepoint is free of the characters the rewrite acts on. */
  predicate PlainCodepoints(cps: seq<string>)
  {
    forall k :: 0 <= k < |cps| ==> '_' !in cps[k] && 'u' !in cps[k]
  }

  lemma MatchStartsWith(s: string, i: nat, pat: string)
    requires |pat| > 0 && MatchAt(s, i, pat)
    ensures s[i] == pat[0]
  {
    assert s[i..i + |pat|][0] == s[i];
  }

  lemma NoMatchWithoutFirstChar(a: string, b: string, pat: string)
    requires |pat| > 0 && pat[0] !in a
    ensures forall i :: 0 <= i < |a| ==> !MatchAt(a + b, i, pat)
  {
    forall i | 0 <= i < |a| && MatchAt(a + b, i, pat)
      ensures false
    {
      MatchStartsWith(a + b, i, pat);
    }
  }

  lemma {:induction false} ReplaceMacTail(cps: seq<string>, sep: string)
    requires PlainCodepoints(cps)
    ensures Replace(MacTail(cps), "_u", sep) == JoinTail(cps, sep)
  {
    if |cps| > 0 {
      var rest := cps[0] + MacTail(cps[1..]);
      assert MacTail(cps) == "_u" + rest;
      ReplaceHead(rest, "_u", sep);
      NoMatchWithoutFirstChar(cps[0], MacTail(cps[1..]), "_u");
      ReplaceKeepsPrefix(cps[0], MacTail(cps[1..]), "_u", sep);
      ReplaceMacTail(cps[1..], sep);
    }
  }

  lemma {:induction false} JoinTailHasNo(cps: seq<string>, sep: string, c: char)
    requires c !in sep && forall k :: 0 <= k < |cps| ==> c !in cps[k]
    ensures c !in JoinTail(cps, sep)
  {
    if |cps| > 0 {
      JoinTailHasNo(cps[1..], sep, c);
    }
  }

  lemma NoMatchOfChar(s: string, c: char)
    requires c !in s
    ensures forall i :: 0 <= i < |s| ==> !MatchAt(s, i, [c])
  {
    forall i | 0 <= i < |s| && MatchAt(s, i, [c])
      ensures false
    {
      MatchStartsWith(s, i, [c]);
    }
  }

  /** The first `REPLACE` turns every `_u` of a macOS name into `sep`. */
  lemma ReplaceMacName(cps: seq<string>, sep: string)
    requires |cps| > 0 && PlainCodepoints(cps)
    ensures Replace(MacName(cps), "_u", sep) == "u" + Joined(cps, sep)
  {
    var head := "u" + cps[0];
    assert MacName(cps) == head + MacTail(cps[1..]);
    assert '_' !in head;
    NoMatchWithoutFirstChar(head, MacTail(cps[1..]), "_u");
    ReplaceKeepsPrefix(head, MacTail(cps[1..]), "_u", sep);
    ReplaceMacTail(cps[1..], sep);
  }

  /** The rewrite turns the macOS name of a codepoint sequence into the
      codepoints joined by the pass's separator, lower-cased: `_u` becomes the
      separator, the leading `u` disappears and hex letters are lowered. */
  lemma LookupKeyOfMacName(cps: seq<string>, p: Pass)
    requires |cps| > 0 && PlainCodepoints(cps)
    ensures LookupKey(MacName(cps), Separator(p)) == Lower(Joined(cps, Separator(p)))
  {
    var sep := Separator(p);
    var joined := Joined(cps, sep);
    ReplaceMacName(cps, sep);
    JoinTailHasNo(cps[1..], sep, 'u');
    assert 'u' !in joined;
    ReplaceCharAppend("u", joined, 'u', "");
    assert Replace("u", "u", "") == "";
    NoMatchOfChar(joined, 'u');
    ReplaceAbsent(joined, "u", "");
  }

  /** The example from the macOS glyph set: `u1F343_u200D` is looked up as
      `1f343-200d` by the plain pass. */
  lemma PlainKeyExample()
    ensures LookupKey("u1F343_u200D", "-") == "1f343-200d"
  {
    var cps := ["1F343", "200D"];
    assert MacName(cps) == "u1F343_u200D";
    assert PlainCodepoints(cps);
    LookupKeyOfMacName(cps, Plain);
    assert Joined(cps, "-") == "1F343-200D";
    assert Lower("1F343-200D") == "1f343-200d";
  }

  /** When the codepoint part holds no `_u`, the joiner passes compute the
      same key as their plain counterparts: they differ only in what `_u`
      becomes. */
  lemma JoinerDiffersOnlyInSeparator(part: string, cp: string)
    requires forall i :: 0 <= i < |part| ==> !MatchAt(part, i, "_u")
    ensures LookupKey(part, "-") == LookupKey(part, "-200d-")
    ensures PassMatches(Joiner, part, cp) <==> PassMatches(Plain, part, cp)
    ensures PassMatches(JoinerSkinTone, part, cp) <==> PassMatches(SkinTone, part, cp)
  {
    ReplaceAbsent(part, "_u", "-");
    ReplaceAbsent(part, "_u", "-200d-");
  }

  /** So a single-codepoint glyph is never matched by a joiner pass: if the
      plain passes found nothing, the joiner passes find nothing either. */
  lemma JoinerPassesNeedJoinedName(part: string, rows: seq<EjpRow>)
    requires forall i :: 0 <= i < |part| ==> !MatchAt(part, i, "_u")
    ensures CodepointHit(part, rows).Some? ==> CodepointHit(part, rows).value.pass in {Plain, SkinTone}
  {
    CodepointHitIsFirst(part, rows);
    forall i | 0 <= i < |rows|
      ensures PassMatches(Joiner, part, rows[i].codepoint) <==> PassMatches(Plain, part, rows[i].codepoint)
      ensures PassMatches(JoinerSkinTone, part, rows[i].codepoint) <==> PassMatches(SkinTone, part, rows[i].codepoint)
    {
      JoinerDiffersOnlyInSeparator(part, rows[i].codepoint);
    }
  }

  /** The Emojipedia codepoint with a trailing `-fe0f` (variation selector 16)
      dropped. */
  function DropVariationSelector(cp: string): string
  {
    if |cp| >= 5 && cp[|cp| - 5..] == "-fe0f" then cp[..|cp| - 5] else cp
  }

  /** The skin-tone passes compare against the codepoint with `.0` appended,
      where a trailing `-fe0f` is dropped first (codepoints hold no `.`). */
  lemma SkinToneCodepointMeaning(cp: string)
    requires '.' !in cp
    ensures SkinToneCodepoint(cp) == DropVariationSelector(cp) + ".0"
  {
    var pat := "-fe0f.0";
    var s := cp + ".0";
    forall i | 0 <= i < |cp| - 5
      ensures !MatchAt(s, i, pat)
    {
      assert s[i + 5] == cp[i + 5];
      assert s[i..i + 7][5] == s[i + 5];
    }
    if |cp| >= 5 && cp[|cp| - 5..] == "-fe0f" {
      var a := cp[..|cp| - 5];
      assert s == a + pat;
      ReplaceKeepsPrefix(a, pat, pat, ".0");
      ReplaceHead([], pat, ".0");
      assert pat + [] == pat;
    } else {
      forall i | 0 <= i < |cp|
        ensures !MatchAt(s, i, pat)
      {
        assert i == |cp| - 5 && i + 7 <= |s| ==> s[i..i + 7][..5] == cp[|cp| - 5..];
      }
      ReplaceKeepsPrefix(cp, ".0", pat, ".0");
    }
  }
}
