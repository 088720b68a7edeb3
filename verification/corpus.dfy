/** The tables the dashboard reads and writes, as immutable rows. Storage is
    a sequence of rows per table; SQL queries become pure functions over
    them. */
module Corpus {

  /** A row of `files`. */
  datatype FileRec = FileRec(
    id: int,
    filename: string,
    dataset: int,
    relPath: string,
    fileSize: int,
    hasText: bool,
    needsOcr: bool)

  /** A row of `text_cache` joined with its file (`files f JOIN text_cache tc
      ON tc.file_id = f.id`). `charCount` is the stored column, which the
      model does not tie to `|text|`. */
  datatype Doc = Doc(file: FileRec, text: string, charCount: int)

  /** A row of `search_results`. */
  datatype SearchRow = SearchRow(fileId: int, keyword: string, matchCount: int, context: string)

  /** A row of `entities`, produced by an external NER pass. */
  datatype EntityRow = EntityRow(fileId: int, normalized: string, entityLabel: string, count: int)

  /** A row of `entity_cooccurrence` (also used for graph edges). */
  datatype Edge = Edge(a: string, b: string, weight: int)

  function Ids(docs: seq<Doc>): set<int> {
    set d | d in docs :: d.file.id
  }
}
