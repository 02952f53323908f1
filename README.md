# emoji-liif glyph matching and background selection, modelled in Dafny

This project models the integer and string core of the emoji-liif scripts. Those scripts pair the macOS Catalina emoji glyphs with the Emojipedia iOS 14.2 images, then prepare the glyphs for super-resolution. The model covers six pieces:

- **Codepoint matching** (`join_hash_tables.py`, modules `SqlText` and `CodepointKeys`).
  - A glyph's codepoint part, such as `u1F343_u200D`, is rewritten by nested SQLite `REPLACE`/`LOWER` calls.
  - It is then looked up in the Emojipedia table by four queries, tried in a fixed order: plain, skin-tone `.0` suffix, zero width joiner, and joiner plus suffix.
  - Each query takes its first matching row. The first query to return a row wins.
- **Hash matching** (`join_hash_tables.py`, module `HashMatch`).
  - `record_match` appends to the list of matched Emojipedia files and updates the dict of matched glyphs. These are module-level state, modelled as the fields of class `GlyphMatcher`.
  - In the second pass, a tie-keeping minimum over `(a_dist, c_dist)` pairs is computed for every glyph not matched by codepoint. The pairs are compared as Python tuples.
  - `write_result_to_db` then writes one row per tie, with the multimatch flag set.
  - As written, the pass never writes the stored entries of codepoint-matched glyphs (see Findings). `HashPassWithCodepointRows` is the pass with those rows written too.
- **Box geometry** (`transform_utils.py`, module `TransformUtils`). Scaling a pixel box with a check for rounding, and cropping by Python slices.
- **Neighbour mask** (`reestimate_leaf_sr_transparency.py`, module `NeighbourMask`). A convolution with an all-ones kernel in reflect mode, compared against the largest possible sum.
- **Background colour choice** (`osx/catalina/calculate_bg.py`, modules `CartesianProduct` and `CalculateBg`).
  - The cartesian product builds the 125-colour cloud.
  - Semi-visible pixel colours are extracted with column-wise sorting and row de-duplication.
  - Each colour gets a `(min, max, mean)` distance record, or the empty record.
  - The colour whose record sorts last is chosen.
- **File name parsing** (`victory/calculate_hashes.py`, module `CalculateHashes`). The `glyph-` prefix, and the split of Emojipedia stems at the first `_`.

`PySeq` holds Python's slice, `find` and `rfind` semantics. `EmojiTables` holds the rows of the two hash tables.

## Model

| member | source | states |
|---|---|---|
| PySeq.Slice | victory/calculate_hashes.py:48-49 | `s[start:stop]` clamps negative and out-of-range bounds as Python does; an in-range slice is the plain subsequence, and a reversed range is empty |
| PySeq.Find | victory/calculate_hashes.py:47 | `find` returns -1 exactly when the character is absent, otherwise the index of its first occurrence |
| SqlText.Lower | join_hash_tables.py:66 | SQLite `LOWER` keeps the length; its meaning is stated in `LowerMeaning` |
| SqlText.Replace | join_hash_tables.py:66 | SQLite `REPLACE` scans left to right and replaces each non-overlapping occurrence; its meaning is stated in `DeleteChar` and `ReplaceKeepsPrefix` |
| SqlText.LowerMeaning | join_hash_tables.py:66 | `LOWER` leaves no upper-case ASCII letter, changes nothing else, and is idempotent |
| SqlText.DeleteChar | join_hash_tables.py:66 | `REPLACE(s, 'u', '')` removes every `u`, keeps every other character with its multiplicity, and shortens `s` by the number of `u`s |
| SqlText.ReplaceKeepsPrefix | join_hash_tables.py:66 | `REPLACE` leaves a prefix in which no occurrence of the pattern starts untouched |
| CodepointKeys.FetchOne | join_hash_tables.py:44-47 | `fetchone` gives None exactly when no row satisfies the query; otherwise it gives the first row that does |
| CodepointKeys.CodepointHitIsFirst | join_hash_tables.py:64-94 | the four queries are tried in order and the first hit wins: the hit satisfies its query, no earlier row satisfies it, no earlier query matches any row, and there is no hit exactly when no query matches any row |
| CodepointKeys.LookupKey | join_hash_tables.py:66 | the left-hand side of every query, `LOWER(REPLACE(REPLACE(?, "_u", sep), "u", ""))`; its meaning is stated in `LookupKeyOfMacName`, `ReplaceMacName` and `PlainKeyExample` |
| CodepointKeys.SkinToneCodepoint | join_hash_tables.py:74 | the right-hand side of the skin-tone queries: the codepoint with `.0` appended, then `-fe0f.0` replaced by `.0`; its meaning is stated in `SkinToneCodepointMeaning` |
| CodepointKeys.CodepointHit | join_hash_tables.py:59-94 | a hit names a row of the Emojipedia table; that it is the first hit of the first matching query, in the fixed query order, is stated in `CodepointHitIsFirst` |
| CodepointKeys.ReplaceMacName | join_hash_tables.py:66 | the inner `REPLACE` turns every `_u` of a macOS name into the separator |
| CodepointKeys.LookupKeyOfMacName | join_hash_tables.py:66 | the lookup key of the macOS name of a codepoint sequence is the lower-cased codepoints joined by the separator (`-` or `-200d-`) |
| CodepointKeys.PlainKeyExample | join_hash_tables.py:66 | `u1F343_u200D` is looked up as `1f343-200d` |
| CodepointKeys.JoinerDiffersOnlyInSeparator | join_hash_tables.py:80-91 | without `_u` in the name, the joiner queries compute the same key as the plain ones and so match the same rows |
| CodepointKeys.JoinerPassesNeedJoinedName | join_hash_tables.py:64-94 | a name with no `_u` is only ever matched by the plain or skin-tone query |
| CodepointKeys.SkinToneCodepointMeaning | join_hash_tables.py:74 | the skin-tone comparison value is the codepoint without a trailing `-fe0f`, followed by `.0` |
| HashMatch.UpdateTies | join_hash_tables.py:122-139 | the nested loop with `keys_to_delete` and `set_to_update` deletes every entry the candidate strictly beats, and adds the candidate when it beat or tied some entry |
| HashMatch.TieCases | join_hash_tables.py:122-139 | over a dict of ties, a strictly better candidate replaces every entry, an equal one is added, and a worse one changes nothing |
| HashMatch.SkipKeepsTies | join_hash_tables.py:110-119 | a row skipped because its file was matched by codepoint, or its hash shapes differ, keeps the tie invariant |
| HashMatch.FirstKeepsTies | join_hash_tables.py:140-141 | the first scored row starts the dict and establishes the invariant |
| HashMatch.WorseKeepsTies | join_hash_tables.py:125-139 | a worse row leaves the dict and the best score unchanged, and keeps the invariant |
| HashMatch.EqualKeepsTies | join_hash_tables.py:125-139 | an equal row joins the dict, and the invariant holds |
| HashMatch.BetterKeepsTies | join_hash_tables.py:125-139 | a strictly better row becomes the only entry and the new best, and the invariant holds |
| HashMatch.UpdateKeepsTies | join_hash_tables.py:122-139 | any scored row keeps the invariant, and the best score becomes the smaller of the old best and the new score |
| HashMatch.TiesAtEnd | join_hash_tables.py:109-141 | after all rows, every entry is a best-scoring scorable row with its score, and every best-scoring scorable row is an entry |
| HashMatch.ScoreGlyph | join_hash_tables.py:105-141 | the dict is empty exactly when no row is scorable; it holds exactly the files of the scorable rows whose `(a_dist, c_dist)` is the lexicographic minimum, each with that score |
| HashMatch.ResultRows | join_hash_tables.py:34-41 | one row per dict entry, each written once, carrying the glyph and the entry's score, with `multimatch` set exactly when the dict has more than one entry |
| HashMatch.DictRowJustified | join_hash_tables.py:34-41 | a row written from the dict of ties is a best candidate, and it is flagged as a multimatch exactly when another file reaches the same best score |
| HashMatch.GlyphRows | join_hash_tables.py:105-142 | a glyph's rows are exactly its best candidates: each row names one, every tied best-scoring file has a row, and files are distinct; there are none exactly when nothing is scorable, and multimatch is set exactly when there are several |
| HashMatch.WriteOnce | join_hash_tables.py:100-142 | `top_hash_matches` has no key (line 32), so nothing but the pass prevents duplicates: appending one glyph's rows, whose files are distinct, after rows that all belong to earlier glyphs keeps every (glyph, file) pair written at most once, given unique glyph names |
| HashMatch.PassWrittenAtEnd | join_hash_tables.py:100-142 | after the hash pass, each written row belongs to a glyph not matched by codepoint and names one of its best candidates; each such glyph with a scorable row has a written row, and each of its tied best candidates is written |
| HashMatch.HitFiles | join_hash_tables.py:49-54 | the file list built by `record_match` over the glyphs, in glyph order; its meaning is stated in `HitFilesMeaning` and `HitFilesCount` |
| HashMatch.HitGlyphs | join_hash_tables.py:49-54 | the dict of matched glyphs built by `record_match`; its meaning is stated in `HitGlyphsMeaning` |
| HashMatch.HitGlyphsMeaning | join_hash_tables.py:49-54 | the glyphs stored by the codepoint pass are exactly those with a hit, each mapped to `{file: (-1, -1)}` of its own hit |
| HashMatch.HitFilesMeaning | join_hash_tables.py:49-54 | the excluded files are exactly the files of the codepoint hits |
| HashMatch.HitFilesCount | join_hash_tables.py:49-54 | one file is excluded per glyph with a hit |
| HashMatch.GlyphMatcher.constructor | join_hash_tables.py:56-57 | the matched-glyph dict and the excluded-file list start empty |
| HashMatch.GlyphMatcher.RecordMatch | join_hash_tables.py:49-54 | the hit's file is appended to the excluded list, and the glyph maps to its dict with that file at `(-1, -1)` |
| HashMatch.GlyphMatcher.CodepointPass | join_hash_tables.py:56-94 | after the first loop, the excluded list gains the hit files in glyph order, the matched dict gains the hit glyphs, and nothing is written |
| HashMatch.GlyphMatcher.HashPass | join_hash_tables.py:100-142 | the second loop as written leaves the codepoint state alone and never writes for a codepoint-matched glyph; every written row names a tied best candidate of a glyph not matched by codepoint, flagged as a multimatch exactly when another file ties; every tied best candidate of such a glyph is written, and something is written whenever a row is scorable; with unique glyph names (the primary key of the macOS table) no glyph has the same file written twice |
| HashMatch.AnyGlyphRows | join_hash_tables.py:101-142 | the rows for one glyph in the corrected pass: each is a stored codepoint entry of a matched glyph, or a best candidate of any other glyph; every stored entry and every tied best candidate has a row, and no file appears twice |
| HashMatch.AllWrittenAtEnd | join_hash_tables.py:100-142 | with the codepoint matches written too, every row is either a stored codepoint entry of its glyph or a best candidate of a glyph not matched by codepoint, and every stored codepoint entry and every tied best candidate is written |
| HashMatch.CodepointRowOfHit | join_hash_tables.py:49-54 | the row written for a codepoint hit names the hit file with both distances -1 and no multimatch flag |
| HashMatch.GlyphMatcher.HashPassWithCodepointRows | join_hash_tables.py:100-142 | the second loop as its docstring describes it: every row of a codepoint-matched glyph is one of its stored entries with the stored distances, and every stored entry is written; every other row names a tied best candidate of its glyph, and every tied best candidate is written; the codepoint state is unchanged; with unique glyph names no glyph has the same file written twice |
| TransformUtils.TruncDiv | transform_utils.py:14 | `astype(int)` truncates toward zero: the floor for non-negative values, the ceiling for negative ones |
| TransformUtils.RoundsDownMeaning | transform_utils.py:15 | a coordinate is rounded down exactly when its exact product is positive and not whole |
| TransformUtils.ScalePixelBoxCoordinates | transform_utils.py:4-21 | it fails with the rounding error exactly when rounding occurred and was not allowed; otherwise it returns the truncated box, warning exactly when rounding occurred |
| TransformUtils.ScaleExact | transform_utils.py:13-21 | when every product is whole the call succeeds without a warning, and each returned coordinate equals the exact product |
| TransformUtils.IntegerScaleNeverFails | transform_utils.py:13-21 | a whole-number scale returns the box multiplied coordinate by coordinate |
| TransformUtils.AllowedRoundingIsFloor | transform_utils.py:14-21 | with rounding allowed the call never fails, and each non-negative coordinate is the floor of its exact product |
| TransformUtils.CropImage | transform_utils.py:23-25 | `img[y0:y1, x0:x1]` has no more rows than the image; its meaning is stated in `CropShape` and `CropInBounds` |
| TransformUtils.CropShape | transform_utils.py:23-25 | the crop is `img[y0:y1, x0:x1]` with Python clamping: it has the clamped row and column extents, and each pixel comes from the matching offset |
| TransformUtils.CropInBounds | transform_utils.py:23-25 | for a box inside the image the crop has `y1-y0` rows of `x1-x0` pixels, and `crop[i][j] == img[y0+i][x0+j]` |
| NeighbourMask.Reflect | reestimate_leaf_sr_transparency.py:36 | a reflected index lies inside the axis and leaves in-range indices alone |
| NeighbourMask.ReflectPeriodic | reestimate_leaf_sr_transparency.py:36 | reflection has period twice the axis length |
| NeighbourMask.OnesKernel | reestimate_leaf_sr_transparency.py:33-34 | the kernel is a square of side `1 + 2*d` filled with ones |
| NeighbourMask.KernelMaxValue | reestimate_leaf_sr_transparency.py:35 | `kernel_max` is `side * side * max_val` |
| NeighbourMask.GetNeighbourMask | reestimate_leaf_sr_transparency.py:25-37 | the mask has the shape of the input |
| NeighbourMask.Window | reestimate_leaf_sr_transparency.py:36 | the reflected window around a pixel that `convolve` weighs, with `side` rows of `side` entries; what it means for the mask is stated in `MaskMeaning` |
| NeighbourMask.ConvolveAt | reestimate_leaf_sr_transparency.py:36 | the `convolve` sum at one pixel, the kernel-weighted sum of its window; for the all-ones kernel its meaning is stated in `WindowMeaning` and `MaskMeaning` |
| NeighbourMask.WindowMeaning | reestimate_leaf_sr_transparency.py:36 | over a window of values at most `m`, the all-ones convolution sum reaches `side * side * m` exactly when every value is `m` |
| NeighbourMask.MaskMeaning | reestimate_leaf_sr_transparency.py:25-37 | with values at most `max_val`, a pixel is set exactly when every pixel of its reflected window equals `max_val` |
| NeighbourMask.AllMaxAllSet | reestimate_leaf_sr_transparency.py:35-37 | an array of `max_val` everywhere gives a mask that is set everywhere |
| NeighbourMask.BelowMaxUnset | reestimate_leaf_sr_transparency.py:35-37 | with values at most `max_val`, a pixel below `max_val` is never set |
| CartesianProduct.Product | osx/catalina/calculate_bg.py:14-21 | the product of k arrays has n1·…·nk rows of length k |
| CartesianProduct.FlatCoords | osx/catalina/calculate_bg.py:18-21 | reading a row index back from its mixed-radix digits gives the index |
| CartesianProduct.CoordsFlat | osx/catalina/calculate_bg.py:18-21 | every digit tuple is the digits of exactly one row index |
| CartesianProduct.ProductAt | osx/catalina/calculate_bg.py:18-21 | entry `i` of row `f` is `arrays[i]` at digit `i` of `f` |
| CartesianProduct.CombinationRow | osx/catalina/calculate_bg.py:18-21 | every combination of entries appears as a row, and at exactly one index |
| CartesianProduct.ProductDistinct | osx/catalina/calculate_bg.py:18-21 | when the inputs have distinct entries, no row appears twice |
| CartesianProduct.LastVariesFastest | osx/catalina/calculate_bg.py:21 | row-major order: the next row advances the last digit and leaves the others unchanged |
| CartesianProduct.FillRow | osx/catalina/calculate_bg.py:19-20 | `arr[i, ...] = a` fills row `i` with array `i`'s entries along its axis, and leaves the other rows alone |
| CartesianProduct.CartesianProductOf | osx/catalina/calculate_bg.py:14-21 | the array-filling loop returns the product, and fails exactly for an empty list of arrays |
| CartesianProduct.Shades | osx/catalina/calculate_bg.py:26 | `linspace(0, 255, 5)` truncated to `uint8` is `[0, 63, 127, 191, 255]` |
| CartesianProduct.ColourCloud | osx/catalina/calculate_bg.py:27 | `cartesian_product([shades] * 3)`; its meaning is stated in `ColourCloudFacts` |
| CartesianProduct.CloudCount | osx/catalina/calculate_bg.py:26-27 | three copies of five shades give 125 combinations |
| CartesianProduct.ColourCloudFacts | osx/catalina/calculate_bg.py:26-27 | the colour cloud holds 125 distinct colours, colour `f` having the shades at digits `f/25`, `f/5 % 5` and `f % 5` |
| CalculateBg.KeepWhere | osx/catalina/calculate_bg.py:41-42 | boolean-mask indexing keeps exactly the rows that pass, with their multiplicities |
| CalculateBg.Colours | osx/catalina/calculate_bg.py:43 | `[:, :3]` keeps one colour per pixel, dropping alpha; its use is stated in `SemiVisibleColoursEmpty` |
| CalculateBg.SemiVisibleMeaning | osx/catalina/calculate_bg.py:41-42 | the semi-visible pixels are those with `0 < alpha < 255` |
| CalculateBg.Sort | osx/catalina/calculate_bg.py:43 | a column is sorted into a permutation of itself |
| CalculateBg.SortColumns | osx/catalina/calculate_bg.py:43 | `np.sort(axis=0)` keeps the number of rows; its meaning is stated in `SortColumnsMeaning` and `ColumnSortRecombinesChannels` |
| CalculateBg.SortColumnsMeaning | osx/catalina/calculate_bg.py:43 | `np.sort(axis=0)` sorts each channel column independently |
| CalculateBg.UniqueRows | osx/catalina/calculate_bg.py:43 | `np.unique(axis=0)` gives the distinct rows in strictly increasing order |
| CalculateBg.ColumnSortRecombinesChannels | osx/catalina/calculate_bg.py:43 | red and green pixels yield black and yellow once the columns are sorted separately |
| CalculateBg.SemiVisibleColours | osx/catalina/calculate_bg.py:41-43 | the chain mask, mask, column slice, column sort and row de-duplication; its meaning is stated in `SemiVisibleMeaning`, `SortColumnsMeaning`, `UniqueRows` and `SemiVisibleColoursEmpty` |
| CalculateBg.SemiVisibleColoursEmpty | osx/catalina/calculate_bg.py:41-43 | there are no semi-visible colours exactly when no pixel is semi-visible |
| CalculateBg.Distances | osx/catalina/calculate_bg.py:48 | one distance per semi-visible colour, in order; its meaning is stated in `ZeroDistance` |
| CalculateBg.ZeroDistance | osx/catalina/calculate_bg.py:48-49 | `0 in all_distances` exactly when some semi-visible colour is at distance zero |
| CalculateBg.RecordOf | osx/catalina/calculate_bg.py:46-57 | a colour keeps the empty record exactly when it is at distance zero from a semi-visible colour |
| CalculateBg.Trunc | osx/catalina/calculate_bg.py:53-55 | `astype(int)` truncates toward zero: the floor of a non-negative value, and within one of a negative value on the side of zero |
| CalculateBg.TruncMonotone | osx/catalina/calculate_bg.py:53-55 | truncation toward zero preserves `<=` |
| CalculateBg.RecordOfOrdered | osx/catalina/calculate_bg.py:53-55 | a non-empty record satisfies `min <= mean <= max` |
| CalculateBg.RecordLessTotal | osx/catalina/calculate_bg.py:60 | tuple order on records, with `()` first, is a strict total order |
| CalculateBg.LastMax | osx/catalina/calculate_bg.py:60-62 | the last item of a stable ascending sort is a maximum, and every later item is strictly smaller |
| CalculateBg.Keys | osx/catalina/calculate_bg.py:39 | the dict comprehension has exactly the cloud colours as keys |
| CalculateBg.KeysOrder | osx/catalina/calculate_bg.py:39 | the keys follow the order in which the colours first appear in the cloud |
| CalculateBg.InitialRecords | osx/catalina/calculate_bg.py:39 | every cloud colour starts with the empty record |
| CalculateBg.RecordsOf | osx/catalina/calculate_bg.py:46-57 | the records of the given colours, one each and in order, each the record `RecordOf` gives |
| CalculateBg.RecordDistances | osx/catalina/calculate_bg.py:46-57 | the loop fails exactly when there are no semi-visible colours; otherwise each colour ends with its record |
| CalculateBg.LastMaxOverCloud | osx/catalina/calculate_bg.py:58-62 | the chosen colour's record is greatest, every colour first seen later has a strictly smaller one, and it is empty only when all records are |
| CalculateBg.PickBackground | osx/catalina/calculate_bg.py:46-65 | the error cases are: an empty cloud, no semi-visible colour, and every record empty (unpacking `()`); otherwise the latest colour with the greatest record is chosen, with its record |
| CalculateBg.ChooseBackground | osx/catalina/calculate_bg.py:39-65 | one image of the main loop, stated in terms of its pixels |
| CalculateBg.AsColours | osx/catalina/calculate_bg.py:39 | `tuple(rgb)` of each cloud row: one colour per row, in order, with the row's three entries as channels |
| CalculateBg.CloudColours | osx/catalina/calculate_bg.py:26-27 | the cloud as colours: 125 of them, colour `f` being the shades at indices `f / 25`, `(f / 5) % 5` and `f % 5` |
| CalculateBg.CloudColoursAreShades | osx/catalina/calculate_bg.py:26-27 | every cloud colour has each channel among 0, 63, 127, 191 and 255 |
| CalculateBg.ShadesAreCloudColours | osx/catalina/calculate_bg.py:26-27 | every triple of shades is in the cloud, at index `25 * i + 5 * j + k` |
| CalculateBg.ImageBackground | osx/catalina/calculate_bg.py:26-65 | one image over the real 125-colour cloud: the cloud is never empty, the other two error cases are exactly no semi-visible colour and every record empty, and a chosen colour is a triple of shades whose record no cloud colour beats |
| CalculateBg.WrappedDistanceCounterexample | osx/catalina/calculate_bg.py:10-12 | with `uint8` wrap-around, black is at squared distance 3 from white but 195075 the other way round |
| CalculateBg.WrappedZeroExactly | osx/catalina/calculate_bg.py:10-12 | wrapping keeps zero differences exactly at equal colours, so the zero test is unaffected |
| CalculateBg.EuclideanDistance | osx/catalina/calculate_bg.py:10-12 | the true Euclidean distance is zero exactly at equal colours, and symmetric |
| CalculateBg.EmptyRecordMeansSeen | osx/catalina/calculate_bg.py:46-57 | with the Euclidean distance, a colour keeps the empty record exactly when it is itself a semi-visible colour |
| CalculateHashes.Suffix | victory/calculate_hashes.py:35 | pathlib's `suffix`, from the last `.` when it is neither the first nor the last character; its meaning is stated in `StemSuffix` |
| CalculateHashes.Stem | victory/calculate_hashes.py:37 | pathlib's `stem`, the name without that suffix; its meaning is stated in `StemSuffix` and `PngNameOf` |
| CalculateHashes.StemSuffix | victory/calculate_hashes.py:35 | pathlib's stem followed by its suffix gives the name back |
| CalculateHashes.PngNameOf | victory/calculate_hashes.py:35 | `stem + ".png"` has suffix `.png` and gives the stem back |
| CalculateHashes.PngFiles | victory/calculate_hashes.py:35 | exactly the regular files with suffix `.png` are kept |
| CalculateHashes.PngFilesAppend | victory/calculate_hashes.py:35 | the list comprehension keeps the listing order: the PNG files of two listings in turn are those of the first followed by those of the second |
| CalculateHashes.OsxCodepointPart | victory/calculate_hashes.py:37 | `stem[6:]`; its meaning is stated in `OsxCodepointPartMeaning` |
| CalculateHashes.OsxCodepointPartMeaning | victory/calculate_hashes.py:37 | `stem[6:]` drops the `glyph-` prefix; shorter stems give the empty string |
| CalculateHashes.EjpSplit | victory/calculate_hashes.py:47-49 | the descriptor and codepoint of a stem, split at `find("_")`; its meaning is stated in `SplitRoundTrip`, `SplitOfJoined` and `SplitWithoutUnderscore` |
| CalculateHashes.SplitRoundTrip | victory/calculate_hashes.py:47-49 | with a `_`, descriptor, `_` and codepoint give the stem back, and the descriptor has no `_` |
| CalculateHashes.SplitOfJoined | victory/calculate_hashes.py:47-49 | a descriptor without `_`, joined by `_` to any codepoint, splits back into the same two parts |
| CalculateHashes.SplitWithoutUnderscore | victory/calculate_hashes.py:47-49 | without a `_`, `find` gives -1: the descriptor is the stem minus its last character and the codepoint is the whole stem |
| CalculateHashes.OsxTable | victory/calculate_hashes.py:35-43 | one macOS row per PNG file, in listing order; its meaning is stated in `OsxTableMeaning` |
| CalculateHashes.EjpTable | victory/calculate_hashes.py:45-55 | one Emojipedia row per PNG file, in listing order; its meaning is stated in `EjpTableMeaning` |
| CalculateHashes.OsxTableMeaning | victory/calculate_hashes.py:35-43 | each macOS row comes from a `.png` file, and `glyph-<cp>.png` gets codepoint part `cp` |
| CalculateHashes.EjpTableMeaning | victory/calculate_hashes.py:45-55 | each Emojipedia row comes from a `.png` file, and `<d>_<cp>.png`, with no `_` in `d`, gets descriptor `d` and codepoint `cp` |

## Left out

- Perceptual hashing (`hex_to_hash`, `average_hash`, `colorhash`, hash subtraction) is a foreign library.
  - Hash distances are a parameter `dist` of the model.
  - A hash is reduced to its shape and hex string, and the shape test of join_hash_tables.py:116-119 compares the stored shapes.
- SQLite reads and writes, the TSV and text exports, `tqdm` progress, and directory listing order are not modelled.
  - Table rows are given as sequences, in table order.
  - Written rows are accumulated in `GlyphMatcher.written`.
  - The files of a directory are a sequence of entries in listing order.
- HashMatch.ResultRows: the model fixes no order among the rows written for one glyph, because Python's dict iteration order follows insertion, which the model does not track.
- TransformUtils.ScalePixelBoxCoordinates: the float `scale` of the callers is modelled as an exact ratio `num/den`.
  - It does not model floating-point error in `box * scale`.
  - The printed warning is modelled as the `warned` flag of the result.
- TransformUtils.CropImage: a numpy view is modelled as a copied sequence, so aliasing with the original image is not captured.
- NeighbourMask.GetNeighbourMask: `convolve` is modelled on integer arrays, as the caller passes them. The float result and its exact `==` comparison are not modelled.
- Euclidean norms are floating point. In `CalculateBg` the distance is a parameter `dist: (Rgb, Rgb) -> real`, exact reals stand in for floats, and `astype(int)` is `Trunc`, truncation toward zero.
- Image reading (`imread`), the unused `png.stem[6:-4]` of osx/catalina/calculate_bg.py:38, and the final database insert of lines 66-71 are I/O and are not modelled.
- HashMatch.HitGlyphsMeaning: requires the glyph file names to be unique. They are the primary key of the macOS table, and with duplicates a later glyph's entry would overwrite an earlier one.
- The remaining scripts of the repository are outside this model: alpha compositing, SR transparency re-estimation, plotting, batch processing and font tooling.

## Findings

| source | as written | input that shows it | evidently intended | confidence | as-written member | corrected member |
|---|---|---|---|---|---|---|
| join_hash_tables.py:142 | the call `write_result_to_db(glyph, glyph_dict)` sits inside the `else` of line 104, so the dict fetched at line 103 for a codepoint-matched glyph is never written | a glyph `glyph-u1F343.png` whose codepoint query hits an Emojipedia file with codepoint `1f343` gets no row in `top_hash_matches` | as the docstring of `record_match` at line 50 says, store the match and write it in the next pass: the call dedented one level, writing the stored entry with distances -1 | not executed | HashMatch.GlyphMatcher.HashPass | HashMatch.GlyphMatcher.HashPassWithCodepointRows |
| osx/catalina/calculate_bg.py:12 | `v1 - v2` on two `uint8` colour arrays wraps each channel modulo 256 before `np.linalg.norm` | `euclidean_dist((0,0,0), (255,255,255))` gives `sqrt(3)`; swapping the arguments gives `sqrt(195075)` | the Euclidean distance between the colours, which is symmetric and large for black against white | not executed | CalculateBg.WrappedDistanceCounterexample | CalculateBg.EuclideanDistance |
