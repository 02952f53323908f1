/** How `victory/calculate_hashes.py` turns directory listings into the rows
    of the two hash tables: which entries are taken, and how each file name
    is cut into a codepoint part (macOS) or a descriptor and a codepoint
    (Emojipedia). The hashes come from an image library and are given as
    functions of the file. */
module CalculateHashes {
  import opened PySeq
  import opened EmojiTables

  /** A directory entry: its name and whether it is a regular file. */
  datatype Entry = Entry(name: string, isFile: bool)

  /** pathlib's `suffix`: from the last `.` on, unless that dot is the first
      or the last character of the name. */
  function Suffix(name: string): (suffix: string)
    ensures |suffix| <= |name|
  {
    var i := RFind(name, '.');
    if 0 < i < |name| - 1 then name[i..] else ""
  }

  /** pathlib's `stem`: the name without its suffix. */
  function Stem(name: string): (stem: string)
    ensures |stem| <= |name|
  {
    var i := RFind(name, '.');
    if 0 < i < |name| - 1 then name[..i] else name
  }

  /** The stem and the suffix put back together give the name. */
  lemma StemSuffix(name: string)
    ensures Stem(name) + Suffix(name) == name
  {
    var i := RFind(name, '.');
    if 0 < i < |name| - 1 {
      assert name == name[..i] + name[i..];
    }
  }

  /** A name with suffix `.png` is a non-empty stem followed by `.png`,
      and the stem is what precedes the last dot. */
  lemma PngName(name: string)
    requires Suffix(name) == ".png"
    ensures name == Stem(name) + ".png"
    ensures |Stem(name)| > 0 && |name| == |Stem(name)| + 4
  {
    StemSuffix(name);
  }

  /** Conversely, any non-empty stem followed by `.png` has suffix `.png`
      and gets that stem back. */
  lemma PngNameOf(stem: string)
    requires |stem| > 0
    ensures Suffix(stem + ".png") == ".png" && Stem(stem + ".png") == stem
  {
    var name := stem + ".png";
    assert name[|stem|] == '.' && name[|stem| + 1..] == "png";
    assert '.' !in name[|stem| + 1..];
    var i := RFind(name, '.');
    assert i == |stem|;
  }

  predicate IsPng(e: Entry)
  {
    e.isFile && Suffix(e.name) == ".png"
  }

  /** Lines 35 and 45: the regular files whose suffix is `.png`, in listing
      order. */
  function PngFiles(entries: seq<Entry>): (pngs: seq<Entry>)
    ensures |pngs| <= |entries|
    ensures forall e :: e in pngs <==> e in entries && IsPng(e)
  {
    if |entries| == 0 then []
    else
      var rest := PngFiles(entries[1..]);
      assert forall e :: e in entries <==> e == entries[0] || e in entries[1..];
      if IsPng(entries[0]) then [entries[0]] + rest else rest
  }

  /** Filtering keeps the listing order: the PNGs of two listings in turn are
      those of the first, then those of the second. */
  lemma {:induction false} PngFilesAppend(first: seq<Entry>, second: seq<Entry>)
    ensures PngFiles(first + second) == PngFiles(first) + PngFiles(second)
  {
    if |first| > 0 {
      assert (first + second)[1..] == first[1..] + second;
      PngFilesAppend(first[1..], second);
    } else {
      assert first + second == second;
    }
  }

  /** Line 37: the stem with its first six characters (the `glyph-` prefix)
      dropped. */
  function OsxCodepointPart(stem: string): string
  {
    SliceFrom(stem, 6)
  }

  /** A name of the form `glyph-<cp>` gives `<cp>`; a stem of six
      characters or fewer gives the empty string. */
  lemma OsxCodepointPartMeaning(stem: string)
    ensures |stem| >= 6 ==> stem == stem[..6] + OsxCodepointPart(stem)
    ensures |stem| >= 6 && stem[..6] == "glyph-" ==> stem == "glyph-" + OsxCodepointPart(stem)
    ensures |stem| <= 6 ==> OsxCodepointPart(stem) == ""
    ensures forall cp :: OsxCodepointPart("glyph-" + cp) == cp
  {
    forall cp: string
      ensures OsxCodepointPart("glyph-" + cp) == cp
    {
      assert ("glyph-" + cp)[6..] == cp;
    }
  }

  /** Lines 47-49: the stem cut at its first `_` into descriptor and
      codepoint. */
  datatype Split = Split(descriptor: string, codepoint: string)

  function EjpSplit(stem: string): Split
  {
    var pos := Find(stem, '_');
    Split(Slice(stem, 0, pos), SliceFrom(stem, pos + 1))
  }

  /** With an underscore present the split is exact: the descriptor has no
      underscore, and descriptor, `_` and codepoint give the stem back. */
  lemma SplitRoundTrip(stem: string)
    requires '_' in stem
    ensures var s := EjpSplit(stem);
            && s.descriptor + "_" + s.codepoint == stem
            && '_' !in s.descriptor
  {
    var pos := Find(stem, '_');
    assert stem == stem[..pos] + [stem[pos]] + stem[pos + 1..];
  }

  /** Any descriptor without `_` joined to any codepoint by `_` splits back
      into the two. */
  lemma SplitOfJoined(descriptor: string, codepoint: string)
    requires '_' !in descriptor
    ensures EjpSplit(descriptor + "_" + codepoint) == Split(descriptor, codepoint)
  {
    var stem := descriptor + "_" + codepoint;
    var pos := |descriptor|;
    FindJoined(descriptor, codepoint);
    assert stem[0..pos] == descriptor;
    assert stem[pos + 1..] == codepoint;
  }

  /** The first `_` of such a name is the one after the descriptor. */
  lemma FindJoined(descriptor: string, codepoint: string)
    requires '_' !in descriptor
    ensures Find(descriptor + "_" + codepoint, '_') == |descriptor|
  {
    var tail := "_" + codepoint;
    assert descriptor + "_" + codepoint == descriptor + tail;
    assert tail[0] == '_';
    FindAppend(descriptor, tail, '_');
  }

  /** Without an underscore `find` gives -1: the descriptor is the stem
      minus its last character and the codepoint is the whole stem. */
  lemma SplitWithoutUnderscore(stem: string)
    requires '_' !in stem
    ensures EjpSplit(stem).codepoint == stem
    ensures |stem| > 0 ==> EjpSplit(stem).descriptor == stem[..|stem| - 1]
    ensures |stem| == 0 ==> EjpSplit(stem).descriptor == ""
  {
  }

  /** Lines 35-43: one `osx_hashes` row per macOS PNG, in listing order. */
  function OsxTable(entries: seq<Entry>, aHash: string -> Hash, cHash: string -> Hash): (rows: seq<OsxRow>)
    ensures |rows| == |PngFiles(entries)|
  {
    var pngs := PngFiles(entries);
    seq(|pngs|, i requires 0 <= i < |pngs| =>
      OsxRow(pngs[i].name, OsxCodepointPart(Stem(pngs[i].name)), aHash(pngs[i].name), cHash(pngs[i].name)))
  }

  /** Lines 45-55: one `emojipedia_hashes` row per Emojipedia PNG, in
      listing order. */
  function EjpTable(entries: seq<Entry>, aHash: string -> Hash, cHash: string -> Hash): (rows: seq<EjpRow>)
    ensures |rows| == |PngFiles(entries)|
  {
    var pngs := PngFiles(entries);
    seq(|pngs|, i requires 0 <= i < |pngs| =>
      var s := EjpSplit(Stem(pngs[i].name));
      EjpRow(pngs[i].name, s.descriptor, s.codepoint, aHash(pngs[i].name), cHash(pngs[i].name)))
  }

  /** Every macOS row comes from a listed regular file with suffix `.png`,
      and a file named `glyph-<cp>.png` carries `<cp>` as its codepoint
      part. */
  lemma OsxTableMeaning(entries: seq<Entry>, aHash: string -> Hash, cHash: string -> Hash)
    ensures forall r :: r in OsxTable(entries, aHash, cHash) ==>
              && Entry(r.filename, true) in entries
              && Suffix(r.filename) == ".png"
              && (forall cp :: r.filename == "glyph-" + cp + ".png" ==> r.codepointPart == cp)
  {
    var pngs := PngFiles(entries);
    forall r | r in OsxTable(entries, aHash, cHash)
      ensures Entry(r.filename, true) in entries && Suffix(r.filename) == ".png"
      ensures forall cp :: r.filename == "glyph-" + cp + ".png" ==> r.codepointPart == cp
    {
      var i :| 0 <= i < |pngs| && OsxTable(entries, aHash, cHash)[i] == r;
      assert pngs[i] in pngs;
      forall cp | r.filename == "glyph-" + cp + ".png"
        ensures r.codepointPart == cp
      {
        PngNameOf("glyph-" + cp);
        assert "glyph-" + cp + ".png" == ("glyph-" + cp) + ".png";
        OsxCodepointPartMeaning("glyph-" + cp);
      }
    }
  }

  /** Every Emojipedia row comes from a listed PNG file; when its file is
      `<descriptor>_<codepoint>.png` with an underscore-free descriptor, the
      row holds exactly those two parts. */
  lemma EjpTableMeaning(entries: seq<Entry>, aHash: string -> Hash, cHash: string -> Hash)
    ensures forall r :: r in EjpTable(entries, aHash, cHash) ==>
              && Entry(r.filename, true) in entries
              && Suffix(r.filename) == ".png"
              && (forall d, cp :: '_' !in d && r.filename == d + "_" + cp + ".png" ==>
                    r.descriptor == d && r.codepoint == cp)
  {
    var pngs := PngFiles(entries);
    forall r | r in EjpTable(entries, aHash, cHash)
      ensures Entry(r.filename, true) in entries && Suffix(r.filename) == ".png"
      ensures forall d, cp :: '_' !in d && r.filename == d + "_" + cp + ".png" ==>
                r.descriptor == d && r.codepoint == cp
    {
      var i :| 0 <= i < |pngs| && EjpTable(entries, aHash, cHash)[i] == r;
      assert pngs[i] in pngs;
      forall d, cp | '_' !in d && r.filename == d + "_" + cp + ".png"
        ensures r.descriptor == d && r.codepoint == cp
      {
        var stem := d + "_" + cp;
        PngNameOf(stem);
        SplitOfJoined(d, cp);
      }
    }
  }
}
