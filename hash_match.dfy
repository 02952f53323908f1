/** The matching script join_hash_tables.py: a codepoint pass that records
    exact codepoint hits, then a hash pass that scores every remaining glyph
    against every remaining Emojipedia file and keeps all candidates tied for
    the lexicographically smallest pair of hash distances. */
module HashMatch {
  import opened Wrappers
  import opened EmojiTables
  import opened CodepointKeys

  /** The pair `(a_dist, c_dist)`, compared as a Python tuple. */
  datatype Score = Score(a: int, c: int)

  /** Lexicographic `<` on score pairs. */
  predicate Less(x: Score, y: Score)
  {
    x.a < y.a || (x.a == y.a && x.c < y.c)
  }

  /** The distances recorded for a codepoint hit. */
  const CodepointScore := Score(-1, -1)

  /** The hash distances of an Emojipedia row to a glyph; `dist` stands for
      the hash library's subtraction of two hashes of the same shape. */
  function ScoreOf(glyph: OsxRow, e: EjpRow, dist: (Hash, Hash) -> int): Score
  {
    Score(dist(glyph.aHash, e.aHash), dist(glyph.cHash, e.cHash))
  }

  /** An Emojipedia row is scored against a glyph unless its file was already
      matched by codepoint or one of its hashes has another shape. */
  predicate Scorable(glyph: OsxRow, e: EjpRow, excluded: seq<string>)
  {
    e.filename !in excluded && e.aHash.shape == glyph.aHash.shape && e.cHash.shape == glyph.cHash.shape
  }

  /** No scorable row among the first `n` scores strictly better than `s`. */
  ghost predicate NoBetter(glyph: OsxRow, rows: seq<EjpRow>, n: nat, excluded: seq<string>,
                           dist: (Hash, Hash) -> int, s: Score)
    requires n <= |rows|
  {
    forall j :: 0 <= j < n && Scorable(glyph, rows[j], excluded) ==> !Less(ScoreOf(glyph, rows[j], dist), s)
  }

  /** `f` is the file of a best-scoring scorable row, and `s` is its score. */
  ghost predicate BestCandidate(glyph: OsxRow, rows: seq<EjpRow>, excluded: seq<string>,
                                dist: (Hash, Hash) -> int, f: string, s: Score)
  {
    && NoBetter(glyph, rows, |rows|, excluded, dist, s)
    && exists j :: 0 <= j < |rows| && Scorable(glyph, rows[j], excluded) && rows[j].filename == f
                   && ScoreOf(glyph, rows[j], dist) == s
  }

  /** No Emojipedia row can be scored against the glyph. */
  ghost predicate NoneScorable(glyph: OsxRow, rows: seq<EjpRow>, excluded: seq<string>)
  {
    forall j :: 0 <= j < |rows| ==> !Scorable(glyph, rows[j], excluded)
  }

  /** Row `j` is scorable and no scorable row scores strictly better. */
  ghost predicate BestRow(glyph: OsxRow, rows: seq<EjpRow>, excluded: seq<string>, dist: (Hash, Hash) -> int, j: int)
  {
    && 0 <= j < |rows|
    && Scorable(glyph, rows[j], excluded)
    && NoBetter(glyph, rows, |rows|, excluded, dist, ScoreOf(glyph, rows[j], dist))
  }

  /** The entries a candidate with score `s` does not beat. */
  function Kept(glyphDict: map<string, Score>, s: Score): map<string, Score>
  {
    map k | k in glyphDict && !Less(s, glyphDict[k]) :: glyphDict[k]
  }

  /** One scored candidate against a non-empty dict (the `if glyph_dict:`
      branch): every entry it strictly beats is deleted, and it is added when
      it beat or equalled some entry. */
  method UpdateTies(glyphDict: map<string, Score>, f: string, s: Score) returns (updated: map<string, Score>)
    ensures updated == if exists k :: k in glyphDict && !Less(glyphDict[k], s)
                       then Kept(glyphDict, s)[f := s] else Kept(glyphDict, s)
  {
    updated := glyphDict;
    var setToUpdate := false;
    var keysToDelete: seq<string> := [];
    var pending := glyphDict.Keys;
    while pending != {}
      invariant pending <= glyphDict.Keys
      invariant setToUpdate <==> exists k :: k in glyphDict && k !in pending && !Less(glyphDict[k], s)
      invariant forall k :: k in keysToDelete <==> k in glyphDict && k !in pending && Less(s, glyphDict[k])
      invariant forall a, b :: 0 <= a < b < |keysToDelete| ==> keysToDelete[a] != keysToDelete[b]
      decreases pending
    {
      var k :| k in pending;
      var v := glyphDict[k];
      if Less(s, v) {
        keysToDelete := keysToDelete + [k];
        setToUpdate := true;
      } else if s == v {
        setToUpdate := true;
      }
      pending := pending - {k};
    }
    var i := 0;
    while i < |keysToDelete|
      invariant 0 <= i <= |keysToDelete|
      invariant updated == glyphDict - (set a | 0 <= a < i :: keysToDelete[a])
    {
      assert keysToDelete[i] !in (set a | 0 <= a < i :: keysToDelete[a]);
      assert keysToDelete[i] in updated;
      updated := updated - {keysToDelete[i]};
      i := i + 1;
    }
    assert updated == Kept(glyphDict, s);
    if setToUpdate {
      updated := updated[f := s];
    }
  }

  /** When every entry holds the same score `best`, a strictly better
      candidate replaces all entries, an equal one is added, and a worse one
      leaves the dict unchanged. */
  lemma TieCases(glyphDict: map<string, Score>, best: Score, f: string, s: Score)
    requires glyphDict != map[]
    requires forall k :: k in glyphDict ==> glyphDict[k] == best
    ensures var r := if exists k :: k in glyphDict && !Less(glyphDict[k], s)
                     then Kept(glyphDict, s)[f := s] else Kept(glyphDict, s);
            && (Less(s, best) ==> r == map[f := s])
            && (s == best ==> r == glyphDict[f := s])
            && (Less(best, s) ==> r == glyphDict)
  {
    var k0 :| k0 in glyphDict;
    assert glyphDict[k0] == best;
    if Less(s, best) {
      assert Kept(glyphDict, s) == map[];
    } else {
      assert Kept(glyphDict, s) == glyphDict;
    }
  }

  /** The invariant of the hash pass after the first `n` rows: the dict maps
      the files of the scorable rows scoring `best` to `best`, `best` is the
      smallest score seen, and the dict is empty only when no row was scorable;
      `wit` names a row for each entry. */
  ghost predicate TieDict(glyph: OsxRow, rows: seq<EjpRow>, n: nat, excluded: seq<string>, dist: (Hash, Hash) -> int,
                          glyphDict: map<string, Score>, best: Score, wit: map<string, nat>)
    requires n <= |rows|
  {
    && (glyphDict == map[] <==> forall j :: 0 <= j < n ==> !Scorable(glyph, rows[j], excluded))
    && (glyphDict != map[] ==> NoBetter(glyph, rows, n, excluded, dist, best))
    && (forall j :: 0 <= j < n && Scorable(glyph, rows[j], excluded) && ScoreOf(glyph, rows[j], dist) == best
                    ==> rows[j].filename in glyphDict)
    && (forall f :: f in glyphDict ==>
          && glyphDict[f] == best
          && f in wit && wit[f] < n && Scorable(glyph, rows[wit[f]], excluded)
          && rows[wit[f]].filename == f && ScoreOf(glyph, rows[wit[f]], dist) == best)
  }

  /** A row that is not scored leaves the invariant as it was. */
  lemma SkipKeepsTies(glyph: OsxRow, rows: seq<EjpRow>, n: nat, excluded: seq<string>, dist: (Hash, Hash) -> int,
                      glyphDict: map<string, Score>, best: Score, wit: map<string, nat>)
    requires n < |rows| && !Scorable(glyph, rows[n], excluded)
    requires TieDict(glyph, rows, n, excluded, dist, glyphDict, best, wit)
    ensures TieDict(glyph, rows, n + 1, excluded, dist, glyphDict, best, wit)
  {
    forall j | 0 <= j < n + 1 && Scorable(glyph, rows[j], excluded)
      ensures j < n
    {
    }
    assert (forall j :: 0 <= j < n + 1 ==> !Scorable(glyph, rows[j], excluded))
       <==> (forall j :: 0 <= j < n ==> !Scorable(glyph, rows[j], excluded));
    if glyphDict != map[] {
      assert NoBetter(glyph, rows, n + 1, excluded, dist, best);
    }
  }

  /** The first scored row starts the dict with its own file. */
  lemma FirstKeepsTies(glyph: OsxRow, rows: seq<EjpRow>, n: nat, excluded: seq<string>, dist: (Hash, Hash) -> int,
                       wit: map<string, nat>)
    requires n < |rows| && Scorable(glyph, rows[n], excluded)
    requires TieDict(glyph, rows, n, excluded, dist, map[], CodepointScore, wit)
    ensures var s := ScoreOf(glyph, rows[n], dist);
            TieDict(glyph, rows, n + 1, excluded, dist, map[rows[n].filename := s], s, wit[rows[n].filename := n])
  {
    var f, s := rows[n].filename, ScoreOf(glyph, rows[n], dist);
    var d, w := map[f := s], wit[f := n];
    forall j | 0 <= j < n + 1 && Scorable(glyph, rows[j], excluded)
      ensures j == n
    {
    }
    assert NoBetter(glyph, rows, n + 1, excluded, dist, s);
    assert !(forall j :: 0 <= j < n + 1 ==> !Scorable(glyph, rows[j], excluded)) by {
      assert 0 <= n < n + 1 && Scorable(glyph, rows[n], excluded);
    }
    forall g | g in d
      ensures g == f && w[g] == n
    {
    }
    assert f in d && d != map[];
    assert d != map[] ==> NoBetter(glyph, rows, n + 1, excluded, dist, s);
    assert forall j :: 0 <= j < n + 1 && Scorable(glyph, rows[j], excluded) && ScoreOf(glyph, rows[j], dist) == s
                    ==> rows[j].filename in d;
    assert forall g :: g in d ==>
          && d[g] == s
          && g in w && w[g] < n + 1 && Scorable(glyph, rows[w[g]], excluded)
          && rows[w[g]].filename == g && ScoreOf(glyph, rows[w[g]], dist) == s;
  }

  /** A worse row leaves the dict and the best score as they were. */
  lemma WorseKeepsTies(glyph: OsxRow, rows: seq<EjpRow>, n: nat, excluded: seq<string>, dist: (Hash, Hash) -> int,
                       glyphDict: map<string, Score>, best: Score, wit: map<string, nat>)
    requires n < |rows| && Scorable(glyph, rows[n], excluded) && Less(best, ScoreOf(glyph, rows[n], dist))
    requires glyphDict != map[]
    requires TieDict(glyph, rows, n, excluded, dist, glyphDict, best, wit)
    ensures TieDict(glyph, rows, n + 1, excluded, dist, glyphDict, best, wit)
  {
    WorseKeepsBest(glyph, rows, n, excluded, dist, best);
    WorseKeepsCovered(glyph, rows, n, excluded, dist, glyphDict, best);
    assert !(forall j :: 0 <= j < n + 1 ==> !Scorable(glyph, rows[j], excluded));
  }

  /** A strictly worse row leaves the best score unbeaten. */
  lemma WorseKeepsBest(glyph: OsxRow, rows: seq<EjpRow>, n: nat, excluded: seq<string>, dist: (Hash, Hash) -> int,
                       best: Score)
    requires n < |rows| && Less(best, ScoreOf(glyph, rows[n], dist))
    requires NoBetter(glyph, rows, n, excluded, dist, best)
    ensures NoBetter(glyph, rows, n + 1, excluded, dist, best)
  {
  }

  /** A strictly worse row adds no file holding the best score. */
  lemma WorseKeepsCovered(glyph: OsxRow, rows: seq<EjpRow>, n: nat, excluded: seq<string>, dist: (Hash, Hash) -> int,
                          glyphDict: map<string, Score>, best: Score)
    requires n < |rows| && Less(best, ScoreOf(glyph, rows[n], dist))
    requires forall j :: 0 <= j < n && Scorable(glyph, rows[j], excluded) && ScoreOf(glyph, rows[j], dist) == best
                         ==> rows[j].filename in glyphDict
    ensures forall j :: 0 <= j < n + 1 && Scorable(glyph, rows[j], excluded) && ScoreOf(glyph, rows[j], dist) == best
                        ==> rows[j].filename in glyphDict
  {
  }

  /** An equal row joins the dict. */
  lemma EqualKeepsTies(glyph: OsxRow, rows: seq<EjpRow>, n: nat, excluded: seq<string>, dist: (Hash, Hash) -> int,
                       glyphDict: map<string, Score>, best: Score, wit: map<string, nat>)
    requires n < |rows| && Scorable(glyph, rows[n], excluded) && ScoreOf(glyph, rows[n], dist) == best
    requires glyphDict != map[]
    requires TieDict(glyph, rows, n, excluded, dist, glyphDict, best, wit)
    ensures TieDict(glyph, rows, n + 1, excluded, dist, glyphDict[rows[n].filename := best], best,
                    wit[rows[n].filename := n])
  {
    assert NoBetter(glyph, rows, n + 1, excluded, dist, best);
  }

  /** A strictly better row replaces every entry and becomes the best. */
  lemma BetterKeepsTies(glyph: OsxRow, rows: seq<EjpRow>, n: nat, excluded: seq<string>, dist: (Hash, Hash) -> int,
                        glyphDict: map<string, Score>, best: Score, wit: map<string, nat>)
    requires n < |rows| && Scorable(glyph, rows[n], excluded) && Less(ScoreOf(glyph, rows[n], dist), best)
    requires glyphDict != map[]
    requires TieDict(glyph, rows, n, excluded, dist, glyphDict, best, wit)
    ensures var s := ScoreOf(glyph, rows[n], dist);
            TieDict(glyph, rows, n + 1, excluded, dist, map[rows[n].filename := s], s, wit[rows[n].filename := n])
  {
    var f, s := rows[n].filename, ScoreOf(glyph, rows[n], dist);
    var d, w := map[f := s], wit[f := n];
    forall j | 0 <= j < n + 1 && Scorable(glyph, rows[j], excluded)
      ensures !Less(ScoreOf(glyph, rows[j], dist), s)
      ensures ScoreOf(glyph, rows[j], dist) == s ==> j == n
    {
    }
    forall g | g in d
      ensures g == f && w[g] == n
    {
    }
    assert f in d && d != map[];
    assert !(forall j :: 0 <= j < n + 1 ==> !Scorable(glyph, rows[j], excluded)) by {
      assert 0 <= n < n + 1 && Scorable(glyph, rows[n], excluded);
    }
    assert NoBetter(glyph, rows, n + 1, excluded, dist, s);
    assert forall j :: 0 <= j < n + 1 && Scorable(glyph, rows[j], excluded) && ScoreOf(glyph, rows[j], dist) == s
                    ==> rows[j].filename in d;
  }

  /** A scored row against a non-empty dict keeps the invariant, with the
      better of the two scores as the new best. */
  lemma UpdateKeepsTies(glyph: OsxRow, rows: seq<EjpRow>, n: nat, excluded: seq<string>, dist: (Hash, Hash) -> int,
                        glyphDict: map<string, Score>, best: Score, wit: map<string, nat>)
    requires n < |rows| && Scorable(glyph, rows[n], excluded)
    requires glyphDict != map[]
    requires TieDict(glyph, rows, n, excluded, dist, glyphDict, best, wit)
    ensures var f, s := rows[n].filename, ScoreOf(glyph, rows[n], dist);
            var updated := if exists k :: k in glyphDict && !Less(glyphDict[k], s)
                           then Kept(glyphDict, s)[f := s] else Kept(glyphDict, s);
            TieDict(glyph, rows, n + 1, excluded, dist, updated, if Less(best, s) then best else s,
                    if Less(best, s) then wit else wit[f := n])
  {
    var f, s := rows[n].filename, ScoreOf(glyph, rows[n], dist);
    TieCases(glyphDict, best, f, s);
    if Less(best, s) {
      WorseKeepsTies(glyph, rows, n, excluded, dist, glyphDict, best, wit);
    } else if s == best {
      EqualKeepsTies(glyph, rows, n, excluded, dist, glyphDict, best, wit);
    } else {
      BetterKeepsTies(glyph, rows, n, excluded, dist, glyphDict, best, wit);
    }
  }

  /** Once every row is seen, the invariant says that the dict holds exactly
      the best-scoring candidates. */
  lemma TiesAtEnd(glyph: OsxRow, rows: seq<EjpRow>, excluded: seq<string>, dist: (Hash, Hash) -> int,
                  glyphDict: map<string, Score>, best: Score, wit: map<string, nat>)
    requires TieDict(glyph, rows, |rows|, excluded, dist, glyphDict, best, wit)
    ensures forall f :: f in glyphDict ==> BestCandidate(glyph, rows, excluded, dist, f, glyphDict[f])
    ensures forall j :: BestRow(glyph, rows, excluded, dist, j)
                        ==> rows[j].filename in glyphDict && glyphDict[rows[j].filename] == ScoreOf(glyph, rows[j], dist)
  {
    forall f | f in glyphDict
      ensures BestCandidate(glyph, rows, excluded, dist, f, glyphDict[f])
    {
      var j := wit[f];
      assert 0 <= j < |rows| && Scorable(glyph, rows[j], excluded) && rows[j].filename == f;
    }
    forall j | 0 <= j < |rows| && Scorable(glyph, rows[j], excluded)
               && NoBetter(glyph, rows, |rows|, excluded, dist, ScoreOf(glyph, rows[j], dist))
      ensures rows[j].filename in glyphDict && glyphDict[rows[j].filename] == ScoreOf(glyph, rows[j], dist)
    {
      var k :| k in glyphDict;
      var i := wit[k];
      assert ScoreOf(glyph, rows[i], dist) == best;
      assert !Less(best, ScoreOf(glyph, rows[j], dist));
    }
  }

  /** The hash pass for one glyph (the body of the loop over `ejp_df`): the
      dict it builds maps exactly the files of the best-scoring scorable rows
      to that best score, and is empty when no row is scorable. */
  method ScoreGlyph(glyph: OsxRow, rows: seq<EjpRow>, excluded: seq<string>, dist: (Hash, Hash) -> int)
    returns (glyphDict: map<string, Score>)
    ensures glyphDict == map[] <==> forall j :: 0 <= j < |rows| ==> !Scorable(glyph, rows[j], excluded)
    ensures forall f :: f in glyphDict ==> BestCandidate(glyph, rows, excluded, dist, f, glyphDict[f])
    ensures forall j :: BestRow(glyph, rows, excluded, dist, j)
                        ==> rows[j].filename in glyphDict && glyphDict[rows[j].filename] == ScoreOf(glyph, rows[j], dist)
  {
    glyphDict := map[];
    ghost var best := CodepointScore;
    ghost var wit: map<string, nat> := map[];
    var n := 0;
    while n < |rows|
      invariant 0 <= n <= |rows|
      invariant TieDict(glyph, rows, n, excluded, dist, glyphDict, best, wit)
    {
      var e := rows[n];
      if e.filename in excluded {
        // do not score files already matched by codepoint
        SkipKeepsTies(glyph, rows, n, excluded, dist, glyphDict, best, wit);
      } else if e.aHash.shape != glyph.aHash.shape || e.cHash.shape != glyph.cHash.shape {
        // hashes of different shapes are not comparable
        SkipKeepsTies(glyph, rows, n, excluded, dist, glyphDict, best, wit);
      } else {
        var s := ScoreOf(glyph, e, dist);
        if glyphDict != map[] {
          UpdateKeepsTies(glyph, rows, n, excluded, dist, glyphDict, best, wit);
          glyphDict := UpdateTies(glyphDict, e.filename, s);
          best, wit := if Less(best, s) then best else s, if Less(best, s) then wit else wit[e.filename := n];
        } else {
          FirstKeepsTies(glyph, rows, n, excluded, dist, wit);
          glyphDict := glyphDict[e.filename := s];
          best := s;
          wit := wit[e.filename := n];
        }
      }
      n := n + 1;
    }
    TiesAtEnd(glyph, rows, excluded, dist, glyphDict, best, wit);
  }

  /** A row of the `top_hash_matches` table. */
  datatype MatchRow = MatchRow(glyph: string, matched: string, aDist: int, cDist: int, multimatch: bool)

  /** Row `r` writes entry `r.matched` of the dict for `glyph`. */
  predicate RowOf(r: MatchRow, glyph: string, glyphDict: map<string, Score>, isMulti: bool)
  {
    && r.glyph == glyph
    && r.matched in glyphDict
    && glyphDict[r.matched] == Score(r.aDist, r.cDist)
    && r.multimatch == isMulti
  }

  /** The rows written so far: one per entry no longer pending, each once. */
  ghost predicate Written(rows: seq<MatchRow>, glyph: string, glyphDict: map<string, Score>, isMulti: bool,
                          pending: set<string>, at: map<string, nat>)
  {
    && (forall k :: 0 <= k < |rows| ==> RowOf(rows[k], glyph, glyphDict, isMulti) && rows[k].matched !in pending)
    && (forall a, b :: 0 <= a < b < |rows| ==> rows[a].matched != rows[b].matched)
    && (forall f :: f in glyphDict && f !in pending ==> f in at && at[f] < |rows| && rows[at[f]].matched == f)
  }

  lemma WriteRow(rows: seq<MatchRow>, glyph: string, glyphDict: map<string, Score>, isMulti: bool,
                 pending: set<string>, at: map<string, nat>, f: string)
    requires f in pending && pending <= glyphDict.Keys
    requires Written(rows, glyph, glyphDict, isMulti, pending, at)
    ensures var d := glyphDict[f];
            Written(rows + [MatchRow(glyph, f, d.a, d.c, isMulti)], glyph, glyphDict, isMulti, pending - {f}, at[f := |rows|])
  {
    var d := glyphDict[f];
    var rows' := rows + [MatchRow(glyph, f, d.a, d.c, isMulti)];
    assert forall k :: 0 <= k < |rows| ==> rows'[k] == rows[k];
  }

  /** `write_result_to_db`: one row per entry of the dict, flagged as a
      multimatch exactly when the dict holds more than one entry. */
  method ResultRows(glyph: string, glyphDict: map<string, Score>) returns (rows: seq<MatchRow>)
    ensures |rows| == |glyphDict|
    ensures forall k :: 0 <= k < |rows| ==>
              && rows[k].glyph == glyph
              && rows[k].matched in glyphDict
              && glyphDict[rows[k].matched] == Score(rows[k].aDist, rows[k].cDist)
              && (rows[k].multimatch <==> |glyphDict| > 1)
    ensures forall a, b :: 0 <= a < b < |rows| ==> rows[a].matched != rows[b].matched
    ensures forall f :: f in glyphDict ==> exists k :: 0 <= k < |rows| && rows[k].matched == f
  {
    var isMulti := |glyphDict| > 1;
    rows := [];
    ghost var at: map<string, nat> := map[];
    var pending := glyphDict.Keys;
    while pending != {}
      invariant pending <= glyphDict.Keys
      invariant |rows| + |pending| == |glyphDict|
      invariant Written(rows, glyph, glyphDict, isMulti, pending, at)
      decreases pending
    {
      var f :| f in pending;
      var d := glyphDict[f];
      WriteRow(rows, glyph, glyphDict, isMulti, pending, at, f);
      at := at[f := |rows|];
      rows := rows + [MatchRow(glyph, f, d.a, d.c, isMulti)];
      pending := pending - {f};
    }
    forall f | f in glyphDict
      ensures exists k :: 0 <= k < |rows| && rows[k].matched == f
    {
      assert rows[at[f]].matched == f;
    }
  }

  /** A written row names the glyph and one of its best-scoring candidates
      among the rows not excluded, with that candidate's distances, and is
      flagged as a multimatch exactly when another file ties with it. */
  ghost predicate Justified(row: MatchRow, glyph: OsxRow, ejpRows: seq<EjpRow>, excluded: seq<string>,
                            dist: (Hash, Hash) -> int)
  {
    && row.glyph == glyph.filename
    && row.matched !in excluded
    && BestCandidate(glyph, ejpRows, excluded, dist, row.matched, Score(row.aDist, row.cDist))
    && (row.multimatch <==> TiedWith(glyph, ejpRows, excluded, dist, row.matched, Score(row.aDist, row.cDist)))
  }

  /** The row is justified for one of the glyphs. */
  ghost predicate JustifiedForSome(row: MatchRow, osxRows: seq<OsxRow>, ejpRows: seq<EjpRow>, excluded: seq<string>,
                                   dist: (Hash, Hash) -> int)
  {
    exists i :: 0 <= i < |osxRows| && Justified(row, osxRows[i], ejpRows, excluded, dist)
  }

  /** Some scorable row of a file other than `f` has score `s`. */
  ghost predicate TiedWith(glyph: OsxRow, ejpRows: seq<EjpRow>, excluded: seq<string>, dist: (Hash, Hash) -> int,
                           f: string, s: Score)
  {
    exists j :: 0 <= j < |ejpRows| && Scorable(glyph, ejpRows[j], excluded) && ejpRows[j].filename != f
                && ScoreOf(glyph, ejpRows[j], dist) == s
  }

  /** What the hash pass has written after the first `n` glyphs: each row
      holds a best candidate of the glyph `origin` names, each unmatched
      glyph with a scorable row has its first row recorded in `firstRow`, and
      with unique glyph names no (glyph, file) pair is written twice. */
  ghost predicate PassWritten(osxRows: seq<OsxRow>, ejpRows: seq<EjpRow>, matchedGlyphs: map<string, map<string, Score>>,
                              excluded: seq<string>, dist: (Hash, Hash) -> int, n: nat,
                              newRows: seq<MatchRow>, origin: seq<nat>, firstRow: map<nat, nat>)
    requires n <= |osxRows|
  {
    && RowsJustified(osxRows, ejpRows, matchedGlyphs, excluded, dist, n, newRows, origin)
    && GlyphsCovered(osxRows, ejpRows, matchedGlyphs, excluded, n, newRows, firstRow)
    && BestsCovered(osxRows, ejpRows, matchedGlyphs, excluded, dist, n, newRows)
    && (Distinct(Names(osxRows)) ==> WrittenOnce(newRows))
  }

  /** `count` copies of `n`: the origin of the rows written for glyph `n`. */
  function Repeat(n: nat, count: nat): (r: seq<nat>)
    ensures |r| == count && forall i :: 0 <= i < count ==> r[i] == n
  {
    seq(count, _ => n)
  }

  /** Rows `a` and `b` write the same file for the same glyph. */
  predicate Repeated(rows: seq<MatchRow>, a: nat, b: nat)
    requires a < |rows| && b < |rows|
  {
    rows[a].glyph == rows[b].glyph && rows[a].matched == rows[b].matched
  }

  /** No glyph has the same file written twice. */
  predicate WrittenOnce(rows: seq<MatchRow>)
  {
    forall a, b :: 0 <= a < b < |rows| ==> !Repeated(rows, a, b)
  }

  /** Appending the rows of glyph `n`, whose files are distinct, writes no pair twice. */
  lemma WriteOnce(osxRows: seq<OsxRow>, n: nat, newRows: seq<MatchRow>, origin: seq<nat>, rows: seq<MatchRow>)
    requires n < |osxRows| && |origin| == |newRows|
    requires forall k :: 0 <= k < |newRows| ==> origin[k] < n && newRows[k].glyph == osxRows[origin[k]].filename
    requires forall k :: 0 <= k < |rows| ==> rows[k].glyph == osxRows[n].filename
    requires forall a, b :: 0 <= a < b < |rows| ==> rows[a].matched != rows[b].matched
    requires Distinct(Names(osxRows)) ==> WrittenOnce(newRows)
    ensures Distinct(Names(osxRows)) ==> WrittenOnce(newRows + rows)
  {
    var rows' := newRows + rows;
    if Distinct(Names(osxRows)) {
      forall k | 0 <= k < |newRows|
        ensures newRows[k].glyph != osxRows[n].filename
      {
        assert Names(osxRows)[origin[k]] != Names(osxRows)[n];
      }
      forall a, b | 0 <= a < b < |rows'|
        ensures !Repeated(rows', a, b)
      {
        if b < |newRows| {
          assert !Repeated(newRows, a, b);
        } else if a < |newRows| {
          assert rows'[a].glyph != rows'[b].glyph;
        } else {
          assert rows[a - |newRows|].matched != rows[b - |newRows|].matched;
        }
      }
    }
  }

  /** Every row written so far comes from an earlier glyph that was not matched by codepoint. */
  ghost predicate RowsJustified(osxRows: seq<OsxRow>, ejpRows: seq<EjpRow>, matchedGlyphs: map<string, map<string, Score>>,
                                excluded: seq<string>, dist: (Hash, Hash) -> int, n: nat,
                                newRows: seq<MatchRow>, origin: seq<nat>)
    requires n <= |osxRows|
  {
    && |origin| == |newRows|
    && (forall k :: 0 <= k < |newRows| ==>
          && origin[k] < n
          && newRows[k].glyph !in matchedGlyphs
          && Justified(newRows[k], osxRows[origin[k]], ejpRows, excluded, dist))
  }

  /** Every earlier glyph with a scorable candidate has a written row. */
  ghost predicate GlyphsCovered(osxRows: seq<OsxRow>, ejpRows: seq<EjpRow>, matchedGlyphs: map<string, map<string, Score>>,
                                excluded: seq<string>, n: nat, newRows: seq<MatchRow>, firstRow: map<nat, nat>)
    requires n <= |osxRows|
  {
    forall i, j :: 0 <= i < n && 0 <= j < |ejpRows| &&
      osxRows[i].filename !in matchedGlyphs && Scorable(osxRows[i], ejpRows[j], excluded)
      ==> i in firstRow && firstRow[i] < |newRows| && newRows[firstRow[i]].glyph == osxRows[i].filename
  }

  /** Every best-scoring candidate of an earlier glyph not matched by codepoint has a written row. */
  ghost predicate BestsCovered(osxRows: seq<OsxRow>, ejpRows: seq<EjpRow>, matchedGlyphs: map<string, map<string, Score>>,
                               excluded: seq<string>, dist: (Hash, Hash) -> int, n: nat, newRows: seq<MatchRow>)
    requires n <= |osxRows|
  {
    forall i, j {:trigger BestRow(osxRows[i], ejpRows, excluded, dist, j)} ::
      0 <= i < n && osxRows[i].filename !in matchedGlyphs && BestRow(osxRows[i], ejpRows, excluded, dist, j)
      ==> exists k :: 0 <= k < |newRows| && newRows[k].glyph == osxRows[i].filename && newRows[k].matched == ejpRows[j].filename
  }

  /** Once every glyph is visited, each written row is justified, each
      scorable glyph has a row and each of its best candidates is written. */
  lemma PassWrittenAtEnd(osxRows: seq<OsxRow>, ejpRows: seq<EjpRow>, matchedGlyphs: map<string, map<string, Score>>,
                         excluded: seq<string>, dist: (Hash, Hash) -> int,
                         newRows: seq<MatchRow>, origin: seq<nat>, firstRow: map<nat, nat>)
    requires PassWritten(osxRows, ejpRows, matchedGlyphs, excluded, dist, |osxRows|, newRows, origin, firstRow)
    ensures forall k :: 0 <= k < |newRows| ==>
              newRows[k].glyph !in matchedGlyphs &&
              JustifiedForSome(newRows[k], osxRows, ejpRows, excluded, dist)
    ensures forall i, j :: 0 <= i < |osxRows| && 0 <= j < |ejpRows| &&
              osxRows[i].filename !in matchedGlyphs && Scorable(osxRows[i], ejpRows[j], excluded)
              ==> exists k :: 0 <= k < |newRows| && newRows[k].glyph == osxRows[i].filename
    ensures forall i, j {:trigger BestRow(osxRows[i], ejpRows, excluded, dist, j)} ::
              0 <= i < |osxRows| && osxRows[i].filename !in matchedGlyphs && BestRow(osxRows[i], ejpRows, excluded, dist, j)
              ==> exists k :: 0 <= k < |newRows| && newRows[k].glyph == osxRows[i].filename && newRows[k].matched == ejpRows[j].filename
  {
    assert RowsJustified(osxRows, ejpRows, matchedGlyphs, excluded, dist, |osxRows|, newRows, origin);
    forall k | 0 <= k < |newRows|
      ensures newRows[k].glyph !in matchedGlyphs
      ensures JustifiedForSome(newRows[k], osxRows, ejpRows, excluded, dist)
    {
      assert Justified(newRows[k], osxRows[origin[k]], ejpRows, excluded, dist);
    }
    GlyphsCoveredAtEnd(osxRows, ejpRows, matchedGlyphs, excluded, newRows, firstRow);
    assert BestsCovered(osxRows, ejpRows, matchedGlyphs, excluded, dist, |osxRows|, newRows);
  }

  lemma GlyphsCoveredAtEnd(osxRows: seq<OsxRow>, ejpRows: seq<EjpRow>, matchedGlyphs: map<string, map<string, Score>>,
                           excluded: seq<string>, newRows: seq<MatchRow>, firstRow: map<nat, nat>)
    requires GlyphsCovered(osxRows, ejpRows, matchedGlyphs, excluded, |osxRows|, newRows, firstRow)
    ensures forall i, j :: 0 <= i < |osxRows| && 0 <= j < |ejpRows| &&
              osxRows[i].filename !in matchedGlyphs && Scorable(osxRows[i], ejpRows[j], excluded)
              ==> exists k :: 0 <= k < |newRows| && newRows[k].glyph == osxRows[i].filename
  {
    forall i, j | 0 <= i < |osxRows| && 0 <= j < |ejpRows| &&
                  osxRows[i].filename !in matchedGlyphs && Scorable(osxRows[i], ejpRows[j], excluded)
      ensures exists k :: 0 <= k < |newRows| && newRows[k].glyph == osxRows[i].filename
    {
      assert newRows[firstRow[i]].glyph == osxRows[i].filename;
    }
  }

  /** A glyph matched by codepoint adds nothing. */
  lemma SkipGlyph(osxRows: seq<OsxRow>, ejpRows: seq<EjpRow>, matchedGlyphs: map<string, map<string, Score>>,
                  excluded: seq<string>, dist: (Hash, Hash) -> int, n: nat,
                  newRows: seq<MatchRow>, origin: seq<nat>, firstRow: map<nat, nat>)
    requires n < |osxRows| && osxRows[n].filename in matchedGlyphs
    requires PassWritten(osxRows, ejpRows, matchedGlyphs, excluded, dist, n, newRows, origin, firstRow)
    ensures PassWritten(osxRows, ejpRows, matchedGlyphs, excluded, dist, n + 1, newRows, origin, firstRow)
  {
    assert RowsJustified(osxRows, ejpRows, matchedGlyphs, excluded, dist, n + 1, newRows, origin);
    assert GlyphsCovered(osxRows, ejpRows, matchedGlyphs, excluded, n + 1, newRows, firstRow);
    assert BestsCovered(osxRows, ejpRows, matchedGlyphs, excluded, dist, n + 1, newRows);
  }

  /** Any other glyph appends the rows written for it. */
  lemma WriteGlyph(osxRows: seq<OsxRow>, ejpRows: seq<EjpRow>, matchedGlyphs: map<string, map<string, Score>>,
                   excluded: seq<string>, dist: (Hash, Hash) -> int, n: nat,
                   newRows: seq<MatchRow>, origin: seq<nat>, firstRow: map<nat, nat>, rows: seq<MatchRow>)
    requires n < |osxRows| && osxRows[n].filename !in matchedGlyphs
    requires PassWritten(osxRows, ejpRows, matchedGlyphs, excluded, dist, n, newRows, origin, firstRow)
    requires rows == [] <==> NoneScorable(osxRows[n], ejpRows, excluded)
    requires forall k :: 0 <= k < |rows| ==> Justified(rows[k], osxRows[n], ejpRows, excluded, dist)
    requires forall j :: BestRow(osxRows[n], ejpRows, excluded, dist, j) ==>
               exists k :: 0 <= k < |rows| && rows[k].matched == ejpRows[j].filename
    requires forall a, b :: 0 <= a < b < |rows| ==> rows[a].matched != rows[b].matched
    ensures PassWritten(osxRows, ejpRows, matchedGlyphs, excluded, dist, n + 1, newRows + rows,
                        origin + Repeat(n, |rows|), if rows != [] then firstRow[n := |newRows|] else firstRow)
  {
    assert RowsJustified(osxRows, ejpRows, matchedGlyphs, excluded, dist, n, newRows, origin);
    forall k | 0 <= k < |newRows|
      ensures origin[k] < n && newRows[k].glyph == osxRows[origin[k]].filename
    {
      assert Justified(newRows[k], osxRows[origin[k]], ejpRows, excluded, dist);
    }
    WriteOnce(osxRows, n, newRows, origin, rows);
    WriteJustified(osxRows, ejpRows, matchedGlyphs, excluded, dist, n, newRows, origin, rows);
    WriteCovered(osxRows, ejpRows, matchedGlyphs, excluded, n, newRows, firstRow, rows);
    WriteBests(osxRows, ejpRows, matchedGlyphs, excluded, dist, n, newRows, rows);
  }

  lemma WriteJustified(osxRows: seq<OsxRow>, ejpRows: seq<EjpRow>, matchedGlyphs: map<string, map<string, Score>>,
                       excluded: seq<string>, dist: (Hash, Hash) -> int, n: nat,
                       newRows: seq<MatchRow>, origin: seq<nat>, rows: seq<MatchRow>)
    requires n < |osxRows| && osxRows[n].filename !in matchedGlyphs
    requires RowsJustified(osxRows, ejpRows, matchedGlyphs, excluded, dist, n, newRows, origin)
    requires forall k :: 0 <= k < |rows| ==> Justified(rows[k], osxRows[n], ejpRows, excluded, dist)
    ensures RowsJustified(osxRows, ejpRows, matchedGlyphs, excluded, dist, n + 1, newRows + rows, origin + Repeat(n, |rows|))
  {
    var rows', origin' := newRows + rows, origin + Repeat(n, |rows|);
    assert forall k :: 0 <= k < |newRows| ==> rows'[k] == newRows[k] && origin'[k] == origin[k];
    assert forall k :: |newRows| <= k < |rows'| ==> rows'[k] == rows[k - |newRows|] && origin'[k] == n;
  }

  lemma WriteCovered(osxRows: seq<OsxRow>, ejpRows: seq<EjpRow>, matchedGlyphs: map<string, map<string, Score>>,
                     excluded: seq<string>, n: nat, newRows: seq<MatchRow>, firstRow: map<nat, nat>, rows: seq<MatchRow>)
    requires n < |osxRows|
    requires GlyphsCovered(osxRows, ejpRows, matchedGlyphs, excluded, n, newRows, firstRow)
    requires osxRows[n].filename !in matchedGlyphs ==> (rows == [] <==> NoneScorable(osxRows[n], ejpRows, excluded))
    requires forall k :: 0 <= k < |rows| ==> rows[k].glyph == osxRows[n].filename
    ensures GlyphsCovered(osxRows, ejpRows, matchedGlyphs, excluded, n + 1, newRows + rows,
                          if rows != [] then firstRow[n := |newRows|] else firstRow)
  {
    var rows' := newRows + rows;
    assert forall k :: 0 <= k < |newRows| ==> rows'[k] == newRows[k];
    if rows != [] {
      assert rows'[|newRows|] == rows[0];
    }
  }

  lemma WriteBests(osxRows: seq<OsxRow>, ejpRows: seq<EjpRow>, matchedGlyphs: map<string, map<string, Score>>,
                   excluded: seq<string>, dist: (Hash, Hash) -> int, n: nat, newRows: seq<MatchRow>, rows: seq<MatchRow>)
    requires n < |osxRows|
    requires BestsCovered(osxRows, ejpRows, matchedGlyphs, excluded, dist, n, newRows)
    requires forall k :: 0 <= k < |rows| ==> rows[k].glyph == osxRows[n].filename
    requires osxRows[n].filename !in matchedGlyphs ==>
               forall j :: BestRow(osxRows[n], ejpRows, excluded, dist, j) ==>
                 exists k :: 0 <= k < |rows| && rows[k].matched == ejpRows[j].filename
    ensures BestsCovered(osxRows, ejpRows, matchedGlyphs, excluded, dist, n + 1, newRows + rows)
  {
    var rows' := newRows + rows;
    forall i, j {:trigger BestRow(osxRows[i], ejpRows, excluded, dist, j)}
      | 0 <= i < n + 1 && osxRows[i].filename !in matchedGlyphs && BestRow(osxRows[i], ejpRows, excluded, dist, j)
      ensures exists k :: 0 <= k < |rows'| && rows'[k].glyph == osxRows[i].filename && rows'[k].matched == ejpRows[j].filename
    {
      if i < n {
        var k :| 0 <= k < |newRows| && newRows[k].glyph == osxRows[i].filename && newRows[k].matched == ejpRows[j].filename;
        assert rows'[k] == newRows[k];
      } else {
        var k :| 0 <= k < |rows| && rows[k].matched == ejpRows[j].filename;
        assert rows'[|newRows| + k] == rows[k];
      }
    }
    assert BestsCovered(osxRows, ejpRows, matchedGlyphs, excluded, dist, n + 1, rows');
  }

  /** A row that writes one entry of the dict the codepoint pass stored for
      its glyph, with that entry's distances, flagged as a multimatch exactly
      when the dict holds more than one entry. */
  predicate CodepointRow(row: MatchRow, matchedGlyphs: map<string, map<string, Score>>)
  {
    row.glyph in matchedGlyphs && RowOf(row, row.glyph, matchedGlyphs[row.glyph], |matchedGlyphs[row.glyph]| > 1)
  }

  /** What a row written for `glyph` must be: a codepoint row when the glyph
      was matched by codepoint, a justified hash row otherwise. */
  ghost predicate SoundRow(row: MatchRow, glyph: OsxRow, ejpRows: seq<EjpRow>, matchedGlyphs: map<string, map<string, Score>>,
                           excluded: seq<string>, dist: (Hash, Hash) -> int)
  {
    if glyph.filename in matchedGlyphs then row.glyph == glyph.filename && CodepointRow(row, matchedGlyphs)
    else Justified(row, glyph, ejpRows, excluded, dist)
  }

  /** Every row written so far is sound for the earlier glyph it came from. */
  ghost predicate RowsSound(osxRows: seq<OsxRow>, ejpRows: seq<EjpRow>, matchedGlyphs: map<string, map<string, Score>>,
                            excluded: seq<string>, dist: (Hash, Hash) -> int, n: nat,
                            newRows: seq<MatchRow>, origin: seq<nat>)
    requires n <= |osxRows|
  {
    && |origin| == |newRows|
    && (forall k :: 0 <= k < |newRows| ==>
          origin[k] < n && SoundRow(newRows[k], osxRows[origin[k]], ejpRows, matchedGlyphs, excluded, dist))
  }

  /** Every codepoint match of an earlier glyph has a written row. */
  ghost predicate CodepointsCovered(osxRows: seq<OsxRow>, matchedGlyphs: map<string, map<string, Score>>, n: nat,
                                    newRows: seq<MatchRow>)
    requires n <= |osxRows|
  {
    forall i, f :: 0 <= i < n && osxRows[i].filename in matchedGlyphs && f in matchedGlyphs[osxRows[i].filename]
      ==> exists k :: 0 <= k < |newRows| && newRows[k].glyph == osxRows[i].filename && newRows[k].matched == f
  }

  /** The loop invariant of the pass that also writes the codepoint matches. */
  ghost predicate AllWritten(osxRows: seq<OsxRow>, ejpRows: seq<EjpRow>, matchedGlyphs: map<string, map<string, Score>>,
                             excluded: seq<string>, dist: (Hash, Hash) -> int, n: nat,
                             newRows: seq<MatchRow>, origin: seq<nat>, firstRow: map<nat, nat>)
    requires n <= |osxRows|
  {
    && RowsSound(osxRows, ejpRows, matchedGlyphs, excluded, dist, n, newRows, origin)
    && GlyphsCovered(osxRows, ejpRows, matchedGlyphs, excluded, n, newRows, firstRow)
    && BestsCovered(osxRows, ejpRows, matchedGlyphs, excluded, dist, n, newRows)
    && CodepointsCovered(osxRows, matchedGlyphs, n, newRows)
    && (Distinct(Names(osxRows)) ==> WrittenOnce(newRows))
  }

  lemma WriteSound(osxRows: seq<OsxRow>, ejpRows: seq<EjpRow>, matchedGlyphs: map<string, map<string, Score>>,
                   excluded: seq<string>, dist: (Hash, Hash) -> int, n: nat,
                   newRows: seq<MatchRow>, origin: seq<nat>, rows: seq<MatchRow>)
    requires n < |osxRows|
    requires RowsSound(osxRows, ejpRows, matchedGlyphs, excluded, dist, n, newRows, origin)
    requires forall k :: 0 <= k < |rows| ==> SoundRow(rows[k], osxRows[n], ejpRows, matchedGlyphs, excluded, dist)
    ensures RowsSound(osxRows, ejpRows, matchedGlyphs, excluded, dist, n + 1, newRows + rows, origin + Repeat(n, |rows|))
  {
    var rows', origin' := newRows + rows, origin + Repeat(n, |rows|);
    assert forall k :: 0 <= k < |newRows| ==> rows'[k] == newRows[k] && origin'[k] == origin[k];
    assert forall k :: |newRows| <= k < |rows'| ==> rows'[k] == rows[k - |newRows|] && origin'[k] == n;
  }

  lemma WriteCodepoints(osxRows: seq<OsxRow>, matchedGlyphs: map<string, map<string, Score>>, n: nat,
                        newRows: seq<MatchRow>, rows: seq<MatchRow>)
    requires n < |osxRows|
    requires CodepointsCovered(osxRows, matchedGlyphs, n, newRows)
    requires forall k :: 0 <= k < |rows| ==> rows[k].glyph == osxRows[n].filename
    requires osxRows[n].filename in matchedGlyphs ==>
               forall f :: f in matchedGlyphs[osxRows[n].filename] ==> exists k :: 0 <= k < |rows| && rows[k].matched == f
    ensures CodepointsCovered(osxRows, matchedGlyphs, n + 1, newRows + rows)
  {
    var rows' := newRows + rows;
    forall i, f | 0 <= i < n + 1 && osxRows[i].filename in matchedGlyphs && f in matchedGlyphs[osxRows[i].filename]
      ensures exists k :: 0 <= k < |rows'| && rows'[k].glyph == osxRows[i].filename && rows'[k].matched == f
    {
      if i < n {
        var k :| 0 <= k < |newRows| && newRows[k].glyph == osxRows[i].filename && newRows[k].matched == f;
        assert rows'[k] == newRows[k];
      } else {
        var k :| 0 <= k < |rows| && rows[k].matched == f;
        assert rows'[|newRows| + k] == rows[k];
      }
    }
    assert CodepointsCovered(osxRows, matchedGlyphs, n + 1, rows');
  }

  /** Any glyph appends the rows written for it: its codepoint rows when it
      was matched by codepoint, its best candidates otherwise. */
  lemma WriteAnyGlyph(osxRows: seq<OsxRow>, ejpRows: seq<EjpRow>, matchedGlyphs: map<string, map<string, Score>>,
                      excluded: seq<string>, dist: (Hash, Hash) -> int, n: nat,
                      newRows: seq<MatchRow>, origin: seq<nat>, firstRow: map<nat, nat>, rows: seq<MatchRow>)
    requires n < |osxRows|
    requires AllWritten(osxRows, ejpRows, matchedGlyphs, excluded, dist, n, newRows, origin, firstRow)
    requires forall k :: 0 <= k < |rows| ==> SoundRow(rows[k], osxRows[n], ejpRows, matchedGlyphs, excluded, dist)
    requires osxRows[n].filename !in matchedGlyphs ==> (rows == [] <==> NoneScorable(osxRows[n], ejpRows, excluded))
    requires osxRows[n].filename !in matchedGlyphs ==>
               forall j :: BestRow(osxRows[n], ejpRows, excluded, dist, j) ==>
                 exists k :: 0 <= k < |rows| && rows[k].matched == ejpRows[j].filename
    requires osxRows[n].filename in matchedGlyphs ==>
               forall f :: f in matchedGlyphs[osxRows[n].filename] ==> exists k :: 0 <= k < |rows| && rows[k].matched == f
    requires forall a, b :: 0 <= a < b < |rows| ==> rows[a].matched != rows[b].matched
    ensures AllWritten(osxRows, ejpRows, matchedGlyphs, excluded, dist, n + 1, newRows + rows,
                       origin + Repeat(n, |rows|), if rows != [] then firstRow[n := |newRows|] else firstRow)
  {
    forall k | 0 <= k < |rows|
      ensures rows[k].glyph == osxRows[n].filename
    {
      assert SoundRow(rows[k], osxRows[n], ejpRows, matchedGlyphs, excluded, dist);
    }
    assert RowsSound(osxRows, ejpRows, matchedGlyphs, excluded, dist, n, newRows, origin);
    forall k | 0 <= k < |newRows|
      ensures origin[k] < n && newRows[k].glyph == osxRows[origin[k]].filename
    {
      assert SoundRow(newRows[k], osxRows[origin[k]], ejpRows, matchedGlyphs, excluded, dist);
    }
    WriteOnce(osxRows, n, newRows, origin, rows);
    WriteSound(osxRows, ejpRows, matchedGlyphs, excluded, dist, n, newRows, origin, rows);
    WriteCovered(osxRows, ejpRows, matchedGlyphs, excluded, n, newRows, firstRow, rows);
    WriteBests(osxRows, ejpRows, matchedGlyphs, excluded, dist, n, newRows, rows);
    WriteCodepoints(osxRows, matchedGlyphs, n, newRows, rows);
  }

  /** The rows the corrected pass writes for one glyph: the stored dict of a
      glyph matched by codepoint, the tied best candidates of any other. */
  method AnyGlyphRows(glyph: OsxRow, ejpRows: seq<EjpRow>, matchedGlyphs: map<string, map<string, Score>>,
                      excluded: seq<string>, dist: (Hash, Hash) -> int)
    returns (rows: seq<MatchRow>)
    ensures forall k :: 0 <= k < |rows| ==> SoundRow(rows[k], glyph, ejpRows, matchedGlyphs, excluded, dist)
    ensures glyph.filename !in matchedGlyphs ==> (rows == [] <==> NoneScorable(glyph, ejpRows, excluded))
    ensures glyph.filename !in matchedGlyphs ==>
              forall j :: BestRow(glyph, ejpRows, excluded, dist, j) ==>
                exists k :: 0 <= k < |rows| && rows[k].matched == ejpRows[j].filename
    ensures glyph.filename in matchedGlyphs ==>
              forall f :: f in matchedGlyphs[glyph.filename] ==> exists k :: 0 <= k < |rows| && rows[k].matched == f
    ensures forall a, b :: 0 <= a < b < |rows| ==> rows[a].matched != rows[b].matched
  {
    if glyph.filename in matchedGlyphs {
      // matched by codepoint: its stored dict is written
      rows := ResultRows(glyph.filename, matchedGlyphs[glyph.filename]);
    } else {
      rows := GlyphRows(glyph, ejpRows, excluded, dist);
    }
  }

  /** Once every glyph is visited, each written row is a codepoint row of a
      matched glyph or a justified row of another glyph. */
  lemma RowsSoundAtEnd(osxRows: seq<OsxRow>, ejpRows: seq<EjpRow>, matchedGlyphs: map<string, map<string, Score>>,
                       excluded: seq<string>, dist: (Hash, Hash) -> int, newRows: seq<MatchRow>, origin: seq<nat>)
    requires RowsSound(osxRows, ejpRows, matchedGlyphs, excluded, dist, |osxRows|, newRows, origin)
    ensures forall k :: 0 <= k < |newRows| && newRows[k].glyph in matchedGlyphs ==> CodepointRow(newRows[k], matchedGlyphs)
    ensures forall k :: 0 <= k < |newRows| && newRows[k].glyph !in matchedGlyphs ==>
              JustifiedForSome(newRows[k], osxRows, ejpRows, excluded, dist)
  {
    forall k | 0 <= k < |newRows|
      ensures newRows[k].glyph in matchedGlyphs ==> CodepointRow(newRows[k], matchedGlyphs)
      ensures newRows[k].glyph !in matchedGlyphs ==> JustifiedForSome(newRows[k], osxRows, ejpRows, excluded, dist)
    {
      var i := origin[k];
      assert SoundRow(newRows[k], osxRows[i], ejpRows, matchedGlyphs, excluded, dist);
      if osxRows[i].filename !in matchedGlyphs {
        assert Justified(newRows[k], osxRows[i], ejpRows, excluded, dist);
      }
    }
  }

  /** For a glyph whose codepoint hit file `f`, its codepoint row records `f`
      with both distances -1 and is not a multimatch. */
  lemma CodepointRowOfHit(row: MatchRow, matchedGlyphs: map<string, map<string, Score>>, f: string)
    requires CodepointRow(row, matchedGlyphs) && matchedGlyphs[row.glyph] == map[f := CodepointScore]
    ensures row.matched == f && row.aDist == -1 && row.cDist == -1 && !row.multimatch
  {
    assert map[f := CodepointScore].Keys == {f};
  }

  /** Once every glyph is visited, the rows are sound, every codepoint match
      is written and every best candidate of another glyph is written. */
  lemma AllWrittenAtEnd(osxRows: seq<OsxRow>, ejpRows: seq<EjpRow>, matchedGlyphs: map<string, map<string, Score>>,
                        excluded: seq<string>, dist: (Hash, Hash) -> int,
                        newRows: seq<MatchRow>, origin: seq<nat>, firstRow: map<nat, nat>)
    requires AllWritten(osxRows, ejpRows, matchedGlyphs, excluded, dist, |osxRows|, newRows, origin, firstRow)
    ensures forall k :: 0 <= k < |newRows| && newRows[k].glyph in matchedGlyphs ==> CodepointRow(newRows[k], matchedGlyphs)
    ensures forall k :: 0 <= k < |newRows| && newRows[k].glyph !in matchedGlyphs ==>
              JustifiedForSome(newRows[k], osxRows, ejpRows, excluded, dist)
    ensures forall i, f :: 0 <= i < |osxRows| && osxRows[i].filename in matchedGlyphs && f in matchedGlyphs[osxRows[i].filename]
              ==> exists k :: 0 <= k < |newRows| && newRows[k].glyph == osxRows[i].filename && newRows[k].matched == f
    ensures forall i, j :: 0 <= i < |osxRows| && 0 <= j < |ejpRows| &&
              osxRows[i].filename !in matchedGlyphs && Scorable(osxRows[i], ejpRows[j], excluded)
              ==> exists k :: 0 <= k < |newRows| && newRows[k].glyph == osxRows[i].filename
    ensures forall i, j {:trigger BestRow(osxRows[i], ejpRows, excluded, dist, j)} ::
              0 <= i < |osxRows| && osxRows[i].filename !in matchedGlyphs && BestRow(osxRows[i], ejpRows, excluded, dist, j)
              ==> exists k :: 0 <= k < |newRows| && newRows[k].glyph == osxRows[i].filename && newRows[k].matched == ejpRows[j].filename
  {
    RowsSoundAtEnd(osxRows, ejpRows, matchedGlyphs, excluded, dist, newRows, origin);
    GlyphsCoveredAtEnd(osxRows, ejpRows, matchedGlyphs, excluded, newRows, firstRow);
    assert BestsCovered(osxRows, ejpRows, matchedGlyphs, excluded, dist, |osxRows|, newRows);
    assert CodepointsCovered(osxRows, matchedGlyphs, |osxRows|, newRows);
  }

  /** One row built from the dictionary of best candidates is justified,
      its multimatch flag included. */
  lemma DictRowJustified(glyph: OsxRow, ejpRows: seq<EjpRow>, excluded: seq<string>, dist: (Hash, Hash) -> int,
                         glyphDict: map<string, Score>, rows: seq<MatchRow>, k: int)
    requires forall f :: f in glyphDict ==> BestCandidate(glyph, ejpRows, excluded, dist, f, glyphDict[f])
    requires forall j :: BestRow(glyph, ejpRows, excluded, dist, j)
                        ==> ejpRows[j].filename in glyphDict && glyphDict[ejpRows[j].filename] == ScoreOf(glyph, ejpRows[j], dist)
    requires |rows| == |glyphDict|
    requires forall k :: 0 <= k < |rows| ==>
               && rows[k].glyph == glyph.filename
               && rows[k].matched in glyphDict
               && glyphDict[rows[k].matched] == Score(rows[k].aDist, rows[k].cDist)
               && (rows[k].multimatch <==> |glyphDict| > 1)
    requires forall a, b :: 0 <= a < b < |rows| ==> rows[a].matched != rows[b].matched
    requires forall f :: f in glyphDict ==> exists k :: 0 <= k < |rows| && rows[k].matched == f
    requires 0 <= k < |rows|
    ensures Justified(rows[k], glyph, ejpRows, excluded, dist)
  {
    var f, s := rows[k].matched, Score(rows[k].aDist, rows[k].cDist);
    assert BestCandidate(glyph, ejpRows, excluded, dist, f, s);
    var i :| 0 <= i < |ejpRows| && Scorable(glyph, ejpRows[i], excluded) && ejpRows[i].filename == f
             && ScoreOf(glyph, ejpRows[i], dist) == s;
    if |rows| > 1 {
      var f' := rows[if k == 0 then 1 else 0].matched;
      assert BestCandidate(glyph, ejpRows, excluded, dist, f', glyphDict[f']);
      var j :| 0 <= j < |ejpRows| && Scorable(glyph, ejpRows[j], excluded) && ejpRows[j].filename == f'
               && ScoreOf(glyph, ejpRows[j], dist) == glyphDict[f'];
      assert !Less(glyphDict[f'], s) && !Less(s, glyphDict[f']);
      assert TiedWith(glyph, ejpRows, excluded, dist, f, s);
    }
    if TiedWith(glyph, ejpRows, excluded, dist, f, s) {
      var j :| 0 <= j < |ejpRows| && Scorable(glyph, ejpRows[j], excluded) && ejpRows[j].filename != f
               && ScoreOf(glyph, ejpRows[j], dist) == s;
      assert BestRow(glyph, ejpRows, excluded, dist, j);
      var k' :| 0 <= k' < |rows| && rows[k'].matched == ejpRows[j].filename;
      assert k' != k;
    }
  }

  /** Every row built from the dictionary of best candidates is justified. */
  lemma DictRowsJustified(glyph: OsxRow, ejpRows: seq<EjpRow>, excluded: seq<string>, dist: (Hash, Hash) -> int,
                          glyphDict: map<string, Score>, rows: seq<MatchRow>)
    requires glyphDict == map[] <==> forall j :: 0 <= j < |ejpRows| ==> !Scorable(glyph, ejpRows[j], excluded)
    requires forall f :: f in glyphDict ==> BestCandidate(glyph, ejpRows, excluded, dist, f, glyphDict[f])
    requires forall j :: BestRow(glyph, ejpRows, excluded, dist, j)
                        ==> ejpRows[j].filename in glyphDict && glyphDict[ejpRows[j].filename] == ScoreOf(glyph, ejpRows[j], dist)
    requires |rows| == |glyphDict|
    requires forall k :: 0 <= k < |rows| ==>
               && rows[k].glyph == glyph.filename
               && rows[k].matched in glyphDict
               && glyphDict[rows[k].matched] == Score(rows[k].aDist, rows[k].cDist)
               && (rows[k].multimatch <==> |glyphDict| > 1)
    requires forall a, b :: 0 <= a < b < |rows| ==> rows[a].matched != rows[b].matched
    requires forall f :: f in glyphDict ==> exists k :: 0 <= k < |rows| && rows[k].matched == f
    ensures rows == [] <==> NoneScorable(glyph, ejpRows, excluded)
    ensures forall k :: 0 <= k < |rows| ==> Justified(rows[k], glyph, ejpRows, excluded, dist)
    ensures forall j :: BestRow(glyph, ejpRows, excluded, dist, j) ==>
              exists k :: 0 <= k < |rows| && rows[k].matched == ejpRows[j].filename
    ensures forall k :: 0 <= k < |rows| ==> (rows[k].multimatch <==> |rows| > 1)
  {
    if glyphDict == map[] {
      assert |glyphDict| == 0;
    } else {
      var f :| f in glyphDict;
      assert |glyphDict| > 0;
    }
    forall j | BestRow(glyph, ejpRows, excluded, dist, j)
      ensures exists k :: 0 <= k < |rows| && rows[k].matched == ejpRows[j].filename
    {
      assert ejpRows[j].filename in glyphDict;
    }
    forall k | 0 <= k < |rows|
      ensures Justified(rows[k], glyph, ejpRows, excluded, dist)
    {
      DictRowJustified(glyph, ejpRows, excluded, dist, glyphDict, rows, k);
    }
  }

  /** The rows the hash pass writes for one glyph (the dict it scores, then
      `write_result_to_db`): each holds a best-scoring candidate, every
      best-scoring candidate is written once, none is written exactly when no
      Emojipedia row is scorable, and the multimatch flag is set exactly when
      more than one row is written. */
  method GlyphRows(glyph: OsxRow, ejpRows: seq<EjpRow>, excluded: seq<string>, dist: (Hash, Hash) -> int)
    returns (rows: seq<MatchRow>)
    ensures rows == [] <==> NoneScorable(glyph, ejpRows, excluded)
    ensures forall k :: 0 <= k < |rows| ==> Justified(rows[k], glyph, ejpRows, excluded, dist)
    ensures forall j :: BestRow(glyph, ejpRows, excluded, dist, j) ==>
              exists k :: 0 <= k < |rows| && rows[k].matched == ejpRows[j].filename
    ensures forall k :: 0 <= k < |rows| ==> (rows[k].multimatch <==> |rows| > 1)
    ensures forall a, b :: 0 <= a < b < |rows| ==> rows[a].matched != rows[b].matched
  {
    var glyphDict := ScoreGlyph(glyph, ejpRows, excluded, dist);
    rows := ResultRows(glyph.filename, glyphDict);
    DictRowsJustified(glyph, ejpRows, excluded, dist, glyphDict, rows);
  }

  /** The file of a glyph's codepoint hit, if any. */
  function HitFile(part: string, ejpRows: seq<EjpRow>): Option<string>
  {
    match CodepointHit(part, ejpRows)
    case Some(h) => Some(ejpRows[h.row].filename)
    case None => None
  }

  /** Each glyph's codepoint hit, in glyph order. */
  function Hits(osxRows: seq<OsxRow>, ejpRows: seq<EjpRow>): (hits: seq<Option<string>>)
    ensures |hits| == |osxRows|
    ensures forall i :: 0 <= i < |osxRows| ==> hits[i] == HitFile(osxRows[i].codepointPart, ejpRows)
  {
    seq(|osxRows|, i requires 0 <= i < |osxRows| => HitFile(osxRows[i].codepointPart, ejpRows))
  }

  function Names(osxRows: seq<OsxRow>): (names: seq<string>)
    ensures |names| == |osxRows|
    ensures forall i :: 0 <= i < |osxRows| ==> names[i] == osxRows[i].filename
  {
    seq(|osxRows|, i requires 0 <= i < |osxRows| => osxRows[i].filename)
  }

  /** The files hit by the codepoint pass, in glyph order. */
  function HitFiles(hits: seq<Option<string>>): seq<string>
  {
    if |hits| == 0 then []
    else
      HitFiles(hits[..|hits| - 1]) +
        match hits[|hits| - 1]
        case Some(f) => [f]
        case None => []
  }

  /** What the codepoint pass stores per glyph name: the hit's file with both
      distances -1; a later glyph of the same name overwrites an earlier one. */
  function HitGlyphs(names: seq<string>, hits: seq<Option<string>>): map<string, map<string, Score>>
    requires |names| == |hits|
  {
    if |hits| == 0 then map[]
    else
      var n := |hits| - 1;
      var before := HitGlyphs(names[..n], hits[..n]);
      match hits[n]
      case Some(f) => before[names[n] := map[f := CodepointScore]]
      case None => before
  }

  /** One more glyph: its hit, if any, is appended to the files and stored
      under its name. */
  lemma HitsStep(names: seq<string>, hits: seq<Option<string>>, n: nat)
    requires |names| == |hits| && n < |hits|
    ensures hits[n].Some? ==> HitFiles(hits[..n + 1]) == HitFiles(hits[..n]) + [hits[n].value]
    ensures hits[n].Some? ==> HitGlyphs(names[..n + 1], hits[..n + 1])
                              == HitGlyphs(names[..n], hits[..n])[names[n] := map[hits[n].value := CodepointScore]]
    ensures hits[n].None? ==> HitFiles(hits[..n + 1]) == HitFiles(hits[..n])
    ensures hits[n].None? ==> HitGlyphs(names[..n + 1], hits[..n + 1]) == HitGlyphs(names[..n], hits[..n])
  {
    assert hits[..n + 1][..n] == hits[..n] && names[..n + 1][..n] == names[..n];
  }

  lemma UnionUpdate<K, V>(a: map<K, V>, b: map<K, V>, k: K, v: V)
    ensures (a + b)[k := v] == a + b[k := v]
  {
  }

  /** Glyph filenames are unique (the table's primary key). */
  predicate Distinct(names: seq<string>)
  {
    forall a, b :: 0 <= a < b < |names| ==> names[a] != names[b]
  }

  /** With unique glyph names, exactly the glyphs with a codepoint hit are
      recorded, each with the single file its hit returned. */
  lemma HitGlyphsMeaning(names: seq<string>, hits: seq<Option<string>>)
    requires |names| == |hits| && Distinct(names)
    ensures forall g :: g in HitGlyphs(names, hits) <==>
              exists i :: 0 <= i < |hits| && names[i] == g && hits[i].Some?
    ensures forall i :: 0 <= i < |hits| && hits[i].Some? ==>
              HitGlyphs(names, hits)[names[i]] == map[hits[i].value := CodepointScore]
  {
    HitGlyphsKeys(names, hits);
    HitGlyphsValues(names, hits);
  }

  /** The names stored are those of the glyphs with a hit. */
  lemma {:induction false} HitGlyphsKeys(names: seq<string>, hits: seq<Option<string>>)
    requires |names| == |hits|
    ensures forall g :: g in HitGlyphs(names, hits) <==>
              exists i :: 0 <= i < |hits| && names[i] == g && hits[i].Some?
  {
    if |hits| > 0 {
      var n := |hits| - 1;
      HitGlyphsKeys(names[..n], hits[..n]);
      var before := HitGlyphs(names[..n], hits[..n]);
      var after := HitGlyphs(names, hits);
      assert after == if hits[n].Some? then before[names[n] := map[hits[n].value := CodepointScore]] else before;
      forall g
        ensures g in after <==> exists i :: 0 <= i < |hits| && names[i] == g && hits[i].Some?
      {
        if g in before {
          var i :| 0 <= i < n && names[..n][i] == g && hits[..n][i].Some?;
          assert names[i] == g && hits[i].Some?;
        }
        if exists i :: 0 <= i < |hits| && names[i] == g && hits[i].Some? {
          var i :| 0 <= i < |hits| && names[i] == g && hits[i].Some?;
          if i < n {
            assert names[..n][i] == g && hits[..n][i].Some?;
          }
        }
      }
    }
  }

  /** With unique names, each stored value is the glyph's own hit. */
  lemma {:induction false} HitGlyphsValues(names: seq<string>, hits: seq<Option<string>>)
    requires |names| == |hits| && Distinct(names)
    ensures forall i :: 0 <= i < |hits| && hits[i].Some? ==>
              names[i] in HitGlyphs(names, hits) && HitGlyphs(names, hits)[names[i]] == map[hits[i].value := CodepointScore]
  {
    if |hits| > 0 {
      var n := |hits| - 1;
      assert Distinct(names[..n]);
      HitGlyphsValues(names[..n], hits[..n]);
      var before := HitGlyphs(names[..n], hits[..n]);
      var after := HitGlyphs(names, hits);
      assert after == if hits[n].Some? then before[names[n] := map[hits[n].value := CodepointScore]] else before;
      forall i | 0 <= i < |hits| && hits[i].Some?
        ensures names[i] in after && after[names[i]] == map[hits[i].value := CodepointScore]
      {
        if i < n {
          assert names[..n][i] == names[i] && hits[..n][i] == hits[i];
          assert names[i] != names[n];
        }
      }
    }
  }


  /** Every file recorded by the codepoint pass is the file of some glyph's
      hit, in glyph order. */
  lemma {:induction false} HitFilesMeaning(hits: seq<Option<string>>)
    ensures forall f :: f in HitFiles(hits) <==> exists i :: 0 <= i < |hits| && hits[i] == Some(f)
  {
    if |hits| > 0 {
      var n := |hits| - 1;
      HitFilesMeaning(hits[..n]);
      var files := HitFiles(hits);
      assert files == HitFiles(hits[..n]) + if hits[n].Some? then [hits[n].value] else [];
      forall f
        ensures f in files <==> exists i :: 0 <= i < |hits| && hits[i] == Some(f)
      {
        if f in HitFiles(hits[..n]) {
          var i :| 0 <= i < n && hits[..n][i] == Some(f);
          assert hits[i] == Some(f);
        }
        if exists i :: 0 <= i < |hits| && hits[i] == Some(f) {
          var i :| 0 <= i < |hits| && hits[i] == Some(f);
          if i < n {
            assert hits[..n][i] == Some(f);
          }
        }
      }
    }
  }

  /** The glyphs (by index) that had a codepoint hit. */
  ghost function HitIndices(hits: seq<Option<string>>): set<nat>
  {
    set i: nat | i < |hits| && hits[i].Some?
  }

  /** The codepoint pass records exactly one file per glyph that had a hit. */
  lemma {:induction false} HitFilesCount(hits: seq<Option<string>>)
    ensures |HitFiles(hits)| == |HitIndices(hits)|
  {
    if |hits| > 0 {
      var n := |hits| - 1;
      HitFilesCount(hits[..n]);
      var before := HitIndices(hits[..n]);
      var after := HitIndices(hits);
      forall i: nat | i < n
        ensures (i in after) == (i in before)
      {
        assert hits[..n][i] == hits[i];
      }
      assert n !in before;
      if hits[n].Some? {
        assert after == before + {n};
      } else {
        assert after == before;
      }
    }
  }

  /** The script's module-level state: the glyphs and the Emojipedia files
      matched by codepoint, and the rows written to `top_hash_matches`. */
  class GlyphMatcher {
    var codepointMatchedGlyphs: map<string, map<string, Score>>
    var codepointMatchedFiles: seq<string>
    var written: seq<MatchRow>

    constructor ()
      ensures codepointMatchedGlyphs == map[] && codepointMatchedFiles == [] && written == []
    {
      codepointMatchedGlyphs := map[];
      codepointMatchedFiles := [];
      written := [];
    }

    /** `record_match`: the hit's file is excluded from the hash pass and
        stored under the glyph with both distances -1. */
    method RecordMatch(hit: EjpRow, glyph: string, glyphDict: map<string, Score>)
      modifies this
      ensures codepointMatchedFiles == old(codepointMatchedFiles) + [hit.filename]
      ensures codepointMatchedGlyphs == old(codepointMatchedGlyphs)[glyph := glyphDict[hit.filename := CodepointScore]]
      ensures written == old(written)
    {
      codepointMatchedFiles := codepointMatchedFiles + [hit.filename];
      var updated := glyphDict[hit.filename := CodepointScore];
      codepointMatchedGlyphs := codepointMatchedGlyphs[glyph := updated];
    }

    /** The first loop over the glyphs: each glyph with a codepoint hit is
        recorded, with a fresh dict, under the row of the first pass that
        returned one. */
    method CodepointPass(osxRows: seq<OsxRow>, ejpRows: seq<EjpRow>)
      modifies this
      ensures written == old(written)
      ensures codepointMatchedFiles == old(codepointMatchedFiles) + HitFiles(Hits(osxRows, ejpRows))
      ensures codepointMatchedGlyphs == old(codepointMatchedGlyphs) + HitGlyphs(Names(osxRows), Hits(osxRows, ejpRows))
    {
      ghost var hits := Hits(osxRows, ejpRows);
      ghost var names := Names(osxRows);
      var n := 0;
      while n < |osxRows|
        invariant 0 <= n <= |osxRows|
        invariant written == old(written)
        invariant codepointMatchedFiles == old(codepointMatchedFiles) + HitFiles(hits[..n])
        invariant codepointMatchedGlyphs == old(codepointMatchedGlyphs) + HitGlyphs(names[..n], hits[..n])
      {
        var row := osxRows[n];
        var glyphDict: map<string, Score> := map[];
        var hit := CodepointHit(row.codepointPart, ejpRows);
        HitsStep(names, hits, n);
        assert names[n] == row.filename;
        assert hits[n] == if hit.Some? then Some(ejpRows[hit.value.row].filename) else None;
        if hit.Some? {
          var f := ejpRows[hit.value.row].filename;
          RecordMatch(ejpRows[hit.value.row], row.filename, glyphDict);
          UnionUpdate(old(codepointMatchedGlyphs), HitGlyphs(names[..n], hits[..n]), row.filename, map[f := CodepointScore]);
        }
        n := n + 1;
      }
      assert hits[..n] == hits && names[..n] == names;
    }

    /** The second loop over the glyphs: a glyph matched by codepoint is
        skipped and nothing is written for it; every other glyph is scored
        against the Emojipedia rows not matched by codepoint and its tied best
        candidates are written (`newRows`, in order). */
    method HashPass(osxRows: seq<OsxRow>, ejpRows: seq<EjpRow>, dist: (Hash, Hash) -> int)
      returns (newRows: seq<MatchRow>)
      modifies this
      ensures codepointMatchedGlyphs == old(codepointMatchedGlyphs)
      ensures codepointMatchedFiles == old(codepointMatchedFiles)
      ensures written == old(written) + newRows
      ensures forall k :: 0 <= k < |newRows| ==>
                newRows[k].glyph !in codepointMatchedGlyphs &&
                JustifiedForSome(newRows[k], osxRows, ejpRows, codepointMatchedFiles, dist)
      ensures forall i, j :: 0 <= i < |osxRows| && 0 <= j < |ejpRows| &&
                osxRows[i].filename !in codepointMatchedGlyphs && Scorable(osxRows[i], ejpRows[j], codepointMatchedFiles)
                ==> exists k :: 0 <= k < |newRows| && newRows[k].glyph == osxRows[i].filename
      ensures forall i, j {:trigger BestRow(osxRows[i], ejpRows, codepointMatchedFiles, dist, j)} ::
                0 <= i < |osxRows| && osxRows[i].filename !in codepointMatchedGlyphs &&
                BestRow(osxRows[i], ejpRows, codepointMatchedFiles, dist, j)
                ==> exists k :: 0 <= k < |newRows| && newRows[k].glyph == osxRows[i].filename
                               && newRows[k].matched == ejpRows[j].filename
      ensures Distinct(Names(osxRows)) ==> WrittenOnce(newRows)
    {
      var matchedGlyphs := codepointMatchedGlyphs;
      var excluded := codepointMatchedFiles;
      newRows := [];
      ghost var origin: seq<nat> := [];
      ghost var firstRow: map<nat, nat> := map[];
      var n: nat := 0;
      while n < |osxRows|
        invariant 0 <= n <= |osxRows|
        invariant unchanged(this)
        invariant PassWritten(osxRows, ejpRows, matchedGlyphs, excluded, dist, n, newRows, origin, firstRow)
      {
        var glyph := osxRows[n];
        if glyph.filename in matchedGlyphs {
          // already matched by codepoint: not rescored, nothing written
          SkipGlyph(osxRows, ejpRows, matchedGlyphs, excluded, dist, n, newRows, origin, firstRow);
        } else {
          var rows := GlyphRows(glyph, ejpRows, excluded, dist);
          WriteGlyph(osxRows, ejpRows, matchedGlyphs, excluded, dist, n, newRows, origin, firstRow, rows);
          if rows != [] {
            firstRow := firstRow[n := |newRows|];
          }
          origin := origin + Repeat(n, |rows|);
          newRows := newRows + rows;
        }
        n := n + 1;
      }
      PassWrittenAtEnd(osxRows, ejpRows, matchedGlyphs, excluded, dist, newRows, origin, firstRow);
      written := written + newRows;
    }

    /** The second loop as its docstring describes it: a glyph matched by
        codepoint has its stored dict written (each file with distances -1)
        instead of being skipped, and every other glyph is scored as in
        `HashPass`. */
    method HashPassWithCodepointRows(osxRows: seq<OsxRow>, ejpRows: seq<EjpRow>, dist: (Hash, Hash) -> int)
      returns (newRows: seq<MatchRow>)
      modifies this
      ensures codepointMatchedGlyphs == old(codepointMatchedGlyphs)
      ensures codepointMatchedFiles == old(codepointMatchedFiles)
      ensures written == old(written) + newRows
      ensures forall k :: 0 <= k < |newRows| && newRows[k].glyph in codepointMatchedGlyphs ==>
                CodepointRow(newRows[k], codepointMatchedGlyphs)
      ensures forall k :: 0 <= k < |newRows| && newRows[k].glyph !in codepointMatchedGlyphs ==>
                JustifiedForSome(newRows[k], osxRows, ejpRows, codepointMatchedFiles, dist)
      ensures forall i, f :: 0 <= i < |osxRows| && osxRows[i].filename in codepointMatchedGlyphs &&
                f in codepointMatchedGlyphs[osxRows[i].filename]
                ==> exists k :: 0 <= k < |newRows| && newRows[k].glyph == osxRows[i].filename && newRows[k].matched == f
      ensures forall i, j :: 0 <= i < |osxRows| && 0 <= j < |ejpRows| &&
                osxRows[i].filename !in codepointMatchedGlyphs && Scorable(osxRows[i], ejpRows[j], codepointMatchedFiles)
                ==> exists k :: 0 <= k < |newRows| && newRows[k].glyph == osxRows[i].filename
      ensures forall i, j {:trigger BestRow(osxRows[i], ejpRows, codepointMatchedFiles, dist, j)} ::
                0 <= i < |osxRows| && osxRows[i].filename !in codepointMatchedGlyphs &&
                BestRow(osxRows[i], ejpRows, codepointMatchedFiles, dist, j)
                ==> exists k :: 0 <= k < |newRows| && newRows[k].glyph == osxRows[i].filename
                               && newRows[k].matched == ejpRows[j].filename
      ensures Distinct(Names(osxRows)) ==> WrittenOnce(newRows)
    {
      var matchedGlyphs := codepointMatchedGlyphs;
      var excluded := codepointMatchedFiles;
      newRows := [];
      ghost var origin: seq<nat> := [];
      ghost var firstRow: map<nat, nat> := map[];
      var n: nat := 0;
      while n < |osxRows|
        invariant 0 <= n <= |osxRows|
        invariant unchanged(this)
        invariant AllWritten(osxRows, ejpRows, matchedGlyphs, excluded, dist, n, newRows, origin, firstRow)
      {
        var rows := AnyGlyphRows(osxRows[n], ejpRows, matchedGlyphs, excluded, dist);
        WriteAnyGlyph(osxRows, ejpRows, matchedGlyphs, excluded, dist, n, newRows, origin, firstRow, rows);
        if rows != [] {
          firstRow := firstRow[n := |newRows|];
        }
        origin := origin + Repeat(n, |rows|);
        newRows := newRows + rows;
        n := n + 1;
      }
      AllWrittenAtEnd(osxRows, ejpRows, matchedGlyphs, excluded, dist, newRows, origin, firstRow);
      written := written + newRows;
    }
  }
}
