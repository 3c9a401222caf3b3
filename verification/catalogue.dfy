/**
  The shared vocabulary: optional values and error results, and the metadata
  table (`clean_anime.csv`) that the title lookup, the genre ranking, the
  autocompletion and the poster fallback of the recommender all read.
 */
module Catalogue {

  /** A value that may be absent (a pandas NaN, or Python's `None`). */
  datatype Option<T> = None | Some(value: T)

  /** The outcome of an operation that may raise `ValueError` with a message. */
  datatype Result<T> = Success(value: T) | Failure(error: string)

  /** A table cell that is only passed through: missing, text or a number. */
  datatype Cell = Nan | Str(text: string) | Num(number: real)

  /** `t` itself, or `""` for a missing value (pandas' `fillna("")`). */
  function OrEmpty(t: Option<string>): string {
    if t.Some? then t.value else ""
  }

  /** One row of the metadata table, with the columns the service reads. */
  datatype MetaRow = MetaRow(
    title: Option<string>,      // "Title"
    score: real,                // "Score"
    episodes: Cell,             // "Episodes"
    imageUrl: Option<string>,   // "Image URL"
    synopsis: Option<string>,   // "Synopsis"
    studios: Cell,              // "Studios"
    popularity: Cell,           // "Popularity"
    ranked: Cell                // "Ranked"
  )

  /** The metadata table: its rows, and for every column name of the table
      (the one-hot genre columns among them, spelled in lower case) the
      truth value pandas gives each row's cell in that column. */
  datatype MetaTable = MetaTable(rows: seq<MetaRow>, columns: map<string, seq<bool>>)

  /** Every column has one cell per row. */
  predicate WellFormed(t: MetaTable) {
    forall c :: c in t.columns ==> |t.columns[c]| == |t.rows|
  }
}
