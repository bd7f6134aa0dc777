/** The reference resolver (the `pythonbible` package) as an uninterpreted
    capability: the model fixes only the shape of its answers. */
module Resolver {
  import opened Options

  /** A canonical verse id such as 1001001 for Genesis 1:1. */
  type VerseId = nat

  datatype RawReference = RawReference(
    startChapter: nat, startVerse: nat, endChapter: nat, endVerse: nat,
    verseIds: seq<VerseId>)

  /** A resolved reference; it always denotes at least one verse, so
      `convert_reference_to_verse_ids(r)[0]` exists. */
  type Reference = r: RawReference | |r.verseIds| > 0 witness RawReference(1, 1, 1, 1, [1001001])

  /** `lookup` is `get_references`: `None` stands for a raised `ValueError`,
      `Some([])` for text in which no reference was found. `chapterOf` and
      `verseOf` are `get_chapter_number` and `get_verse_number`. */
  datatype Resolver = Resolver(
    lookup: string -> Option<seq<Reference>>,
    chapterOf: VerseId -> nat,
    verseOf: VerseId -> nat)

  /** `convert_reference_to_verse_ids(r)[0]` */
  function FirstId(r: Reference): VerseId
  {
    r.verseIds[0]
  }

  /** `convert_references_to_verse_ids(refs)`: the ids of every reference, in order. */
  function AllIds(refs: seq<Reference>): seq<VerseId>
  {
    if refs == [] then [] else refs[0].verseIds + AllIds(refs[1..])
  }
}
