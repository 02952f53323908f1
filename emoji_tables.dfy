/** The rows of the two hash tables that the matching script reads: the
    macOS glyph table `osx_hashes` and the Emojipedia table
    `emojipedia_hashes` (the `d_hash` column is never read and is omitted). */
module EmojiTables {

  /** A perceptual hash as stored: the shape of its bit array (which the
      hash library derives from the hex string) and the hex string itself. */
  datatype Hash = Hash(shape: seq<nat>, hex: string)

  datatype OsxRow = OsxRow(filename: string, codepointPart: string, aHash: Hash, cHash: Hash)

  datatype EjpRow = EjpRow(filename: string, descriptor: string, codepoint: string, aHash: Hash, cHash: Hash)
}
