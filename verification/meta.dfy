/**
  The metadata lookups: `get_meta`, the details of the first row whose title
  matches case-insensitively, and `top_by_genres`, the best-scored rows that
  carry every requested genre.
 */
module Meta {
  import opened Catalogue
  import opened Text
  import opened Selection

  /** The details `get_meta` returns for a row. */
  datatype MetaRecord = MetaRecord(
    title: string,
    score: real,
    episodes: Cell,
    poster: Option<string>,
    synopsis: Option<string>,
    studios: Cell,
    popularity: Cell,
    ranked: Cell
  )

  /** One record of `top_by_genres`; `similarity` is always `None`. */
  datatype GenreRecord = GenreRecord(
    title: Option<string>,
    score: real,
    poster: Option<string>,
    synopsis: Option<string>,
    similarity: Option<real>
  )

  // ---------------------------------------------------------------------
  // get_meta
  // ---------------------------------------------------------------------

  /** `df["title_lower"] == title.lower()` at one row: a missing title
      matches nothing, and neither side is stripped. */
  predicate TitleMatches(row: MetaRow, title: string) {
    row.title.Some? && Lower(row.title.value) == Lower(title)
  }

  function Details(row: MetaRow): MetaRecord
    requires row.title.Some?
  {
    MetaRecord(row.title.value, row.score, row.episodes, row.imageUrl, row.synopsis,
               row.studios, row.popularity, row.ranked)
  }

  /** `get_meta(title)`: `None` when no row matches, otherwise the details
      of the first matching row in catalogue order. */
  function GetMeta(t: MetaTable, title: string): (r: Option<MetaRecord>)
    ensures r.None? <==> forall i :: 0 <= i < |t.rows| ==> !TitleMatches(t.rows[i], title)
    ensures r.Some? ==>
      exists i :: 0 <= i < |t.rows| && TitleMatches(t.rows[i], title) && r.value == Details(t.rows[i])
        && forall j :: 0 <= j < i ==> !TitleMatches(t.rows[j], title)
  {
    var flags := seq(|t.rows|, i requires 0 <= i < |t.rows| => TitleMatches(t.rows[i], title));
    var hits := Where(flags);
    assert forall i :: 0 <= i < |t.rows| ==> (flags[i] <==> TitleMatches(t.rows[i], title));
    if hits == [] then
      assert forall i :: 0 <= i < |t.rows| ==> !flags[i];
      None
    else
      var first := hits[0];
      WhereFirst(flags);
      Some(Details(t.rows[first]))
  }

  /** The lookup ignores the case of the title it is given. */
  lemma GetMetaIgnoresCase(t: MetaTable, title: string)
    ensures GetMeta(t, Lower(title)) == GetMeta(t, title)
  {
    LowerIdempotent(title);
    var f1 := seq(|t.rows|, i requires 0 <= i < |t.rows| => TitleMatches(t.rows[i], Lower(title)));
    var f2 := seq(|t.rows|, i requires 0 <= i < |t.rows| => TitleMatches(t.rows[i], title));
    assert f1 == f2;
  }

  // ---------------------------------------------------------------------
  // top_by_genres
  // ---------------------------------------------------------------------

  /** `[g.strip().lower() for g in genres]` */
  function NormalizeGenres(genres: seq<string>): seq<string> {
    seq(|genres|, i requires 0 <= i < |genres| => Lower(Strip(genres[i])))
  }

  /** `[g for g in gcols if g not in df.columns]`, genre by genre. */
  function Unknown(t: MetaTable, gcols: seq<string>): seq<string>
    decreases |gcols|
  {
    if gcols == [] then []
    else (if gcols[0] !in t.columns then [gcols[0]] else []) + Unknown(t, gcols[1..])
  }

  lemma {:induction false} UnknownMembers(t: MetaTable, gcols: seq<string>)
    ensures |Unknown(t, gcols)| <= |gcols|
    ensures forall g :: g in Unknown(t, gcols) <==> g in gcols && g !in t.columns
    decreases |gcols|
  {
    if gcols != [] {
      UnknownMembers(t, gcols[1..]);
    }
  }

  lemma {:induction false} UnknownAppend(t: MetaTable, a: seq<string>, b: seq<string>)
    ensures Unknown(t, a + b) == Unknown(t, a) + Unknown(t, b)
    decreases |a|
  {
    if a == [] {
      assert a + b == b;
    } else {
      assert (a + b)[0] == a[0];
      assert (a + b)[1..] == a[1..] + b;
      UnknownAppend(t, a[1..], b);
    }
  }

  /** The requested genres that are not columns of the table, in request
      order. */
  function MissingGenres(t: MetaTable, gcols: seq<string>): (r: seq<string>)
    ensures |r| <= |gcols|
    ensures forall g :: g in r <==> g in gcols && g !in t.columns
  {
    UnknownMembers(t, gcols);
    Unknown(t, gcols)
  }

  /** The missing genres keep the request order and its duplicates: listing
      the missing genres of two requests one after the other gives those of
      the joined request. */
  lemma MissingGenresInOrder(t: MetaTable, a: seq<string>, b: seq<string>)
    ensures MissingGenres(t, a + b) == MissingGenres(t, a) + MissingGenres(t, b)
  {
    UnknownAppend(t, a, b);
  }

  /** A single requested genre is listed exactly when it is not a column. */
  lemma MissingGenreSingle(t: MetaTable, g: string)
    ensures MissingGenres(t, [g]) == if g in t.columns then [] else [g]
  {
    assert [g][1..] == [];
    assert Unknown(t, [g]) == (if g !in t.columns then [g] else []) + Unknown(t, []);
  }

  /** The `ValueError` message for unknown genres. */
  function UnknownGenresMessage(missing: seq<string>): string {
    "Unknown genres: " + Join(missing, ", ")
  }

  /** `df[gcols].all(axis=1)` at row `i`: every requested genre column is
      true there (so every row, when no genre is requested). */
  predicate HasAllGenres(t: MetaTable, gcols: seq<string>, i: nat)
    requires WellFormed(t) && i < |t.rows|
    requires forall g :: g in gcols ==> g in t.columns
  {
    forall g :: g in gcols ==> t.columns[g][i]
  }

  /** `r` is a ranking `df[mask].sort_values("Score", ascending=False).head(k)`
      may return: rows with every requested genre, each once, best score
      first, as many as `head(k)` keeps of the matching rows (all but the
      last `-k` for negative `k`), so at most `k` of them for `k >= 0` and
      fewer only when no other row has every genre, and no row with every
      genre left out scores higher than a row kept. The order among equal
      scores is left open. */
  predicate IsGenreRanking(t: MetaTable, gcols: seq<string>, k: int, r: seq<nat>) {
    && WellFormed(t)
    && (forall g :: g in gcols ==> g in t.columns)
    && InRange(r, |t.rows|) && Distinct(r)
    && (forall j :: 0 <= j < |r| ==> HasAllGenres(t, gcols, r[j]))
    && (forall i, j :: 0 <= i < j < |r| ==> t.rows[r[i]].score >= t.rows[r[j]].score)
    && |r| == SliceBound(|MatchingRows(t, gcols)|, k)
    && (k >= 0 ==> |r| <= k)
    && (k >= 0 && |r| < k ==> forall m :: 0 <= m < |t.rows| && HasAllGenres(t, gcols, m) ==> m in r)
    && (forall i, m :: 0 <= i < |r| && 0 <= m < |t.rows| && HasAllGenres(t, gcols, m) && m !in r ==>
          t.rows[m].score <= t.rows[r[i]].score)
  }

  /** `df[mask]` for the AND mask: the rows with every requested genre, in
      catalogue order. */
  function MatchingRows(t: MetaTable, gcols: seq<string>): (m: seq<nat>)
    requires WellFormed(t)
    requires forall g :: g in gcols ==> g in t.columns
    ensures InRange(m, |t.rows|) && Increasing(m)
    ensures forall i :: 0 <= i < |t.rows| ==> (HasAllGenres(t, gcols, i) <==> i in m)
  {
    var n := |t.rows|;
    var flags := seq(n, i requires 0 <= i < n => HasAllGenres(t, gcols, i));
    assert forall i :: 0 <= i < n ==> flags[i] == HasAllGenres(t, gcols, i);
    Where(flags)
  }

  /** One ranking of the rows with every requested genre, by `SortedHead` on
      their scores. */
  function GenreRanking(t: MetaTable, gcols: seq<string>, k: int): (r: seq<nat>)
    requires WellFormed(t)
    requires forall g :: g in gcols ==> g in t.columns
    ensures IsGenreRanking(t, gcols, k, r)
  {
    var matching := MatchingRows(t, gcols);
    var scores := seq(|matching|, j requires 0 <= j < |matching| => t.rows[matching[j]].score);
    var top := SortedHead(scores, k);
    var r := seq(|top|, j requires 0 <= j < |top| => matching[top[j]]);
    RankingOfMatches(t, gcols, k, matching, scores, top, r);
    r
  }

  /** The facts `GenreRanking` promises, carried from the positions among the
      matching rows back to the rows of the table. */
  lemma RankingOfMatches(t: MetaTable, gcols: seq<string>, k: int, matching: seq<nat>, scores: seq<real>, top: seq<nat>, r: seq<nat>)
    requires WellFormed(t)
    requires forall g :: g in gcols ==> g in t.columns
    requires matching == MatchingRows(t, gcols)
    requires |scores| == |matching| && forall j :: 0 <= j < |matching| ==> scores[j] == t.rows[matching[j]].score
    requires IsTop(scores, top) && |top| == SliceBound(|scores|, k)
    requires |r| == |top| && forall j :: 0 <= j < |top| ==> r[j] == matching[top[j]]
    ensures IsGenreRanking(t, gcols, k, r)
  {
    MappedDistinct(matching, top, r);
    LeftOutMatches(t, gcols, matching, scores, top, r);
    forall j | 0 <= j < |r| ensures HasAllGenres(t, gcols, r[j]) {
      assert r[j] in matching;
    }
  }

  /** Distinct positions in an increasing list name distinct rows. */
  lemma MappedDistinct(matching: seq<nat>, top: seq<nat>, r: seq<nat>)
    requires Increasing(matching) && InRange(top, |matching|) && Distinct(top)
    requires |r| == |top| && forall j :: 0 <= j < |top| ==> r[j] == matching[top[j]]
    ensures Distinct(r)
  {
    forall i, j | 0 <= i < j < |r| ensures r[i] != r[j] {
      if top[i] < top[j] {
        assert matching[top[i]] < matching[top[j]];
      } else {
        assert matching[top[j]] < matching[top[i]];
      }
    }
  }

  /** A matching row left out of the ranking scores no higher than any row
      kept, and its existence means not every match was kept. */
  lemma LeftOutMatches(t: MetaTable, gcols: seq<string>, matching: seq<nat>, scores: seq<real>, top: seq<nat>, r: seq<nat>)
    requires WellFormed(t)
    requires forall g :: g in gcols ==> g in t.columns
    requires InRange(matching, |t.rows|)
    requires forall i :: 0 <= i < |t.rows| ==> (HasAllGenres(t, gcols, i) <==> i in matching)
    requires |scores| == |matching| && forall j :: 0 <= j < |matching| ==> scores[j] == t.rows[matching[j]].score
    requires IsTop(scores, top)
    requires |r| == |top| && forall j :: 0 <= j < |top| ==> r[j] == matching[top[j]]
    ensures forall m :: 0 <= m < |t.rows| && HasAllGenres(t, gcols, m) && m !in r ==> |r| < |matching|
    ensures forall i, m :: 0 <= i < |r| && 0 <= m < |t.rows| && HasAllGenres(t, gcols, m) && m !in r ==>
      t.rows[m].score <= t.rows[r[i]].score
  {
    forall m | 0 <= m < |t.rows| && HasAllGenres(t, gcols, m) && m !in r
      ensures |r| < |matching|
      ensures forall i :: 0 <= i < |r| ==> t.rows[m].score <= t.rows[r[i]].score
    {
      var q :| 0 <= q < |matching| && matching[q] == m;
      assert q !in top;
      forall i | 0 <= i < |r| ensures t.rows[m].score <= t.rows[r[i]].score {
        assert scores[q] <= scores[top[i]];
      }
      DistinctMissesOne(top, |matching|, q);
    }
  }

  function GenreRecordOf(row: MetaRow): GenreRecord {
    GenreRecord(row.title, row.score, row.imageUrl, row.synopsis, None)
  }

  /** The loop of `top_by_genres` that builds one record per ranked row. */
  method BuildRecords(t: MetaTable, subset: seq<nat>) returns (records: seq<GenreRecord>)
    requires InRange(subset, |t.rows|)
    ensures |records| == |subset|
    ensures forall q :: 0 <= q < |subset| ==> records[q] == GenreRecordOf(t.rows[subset[q]])
  {
    records := [];
    for j := 0 to |subset|
      invariant |records| == j
      invariant forall q :: 0 <= q < j ==> records[q] == GenreRecordOf(t.rows[subset[q]])
    {
      records := records + [GenreRecordOf(t.rows[subset[j]])];
    }
  }

  /** Every requested genre is a column once none is missing. */
  lemma NoneMissing(t: MetaTable, gcols: seq<string>)
    requires MissingGenres(t, gcols) == []
    ensures forall g :: g in gcols ==> g in t.columns
  {
    forall g | g in gcols ensures g in t.columns {
      assert g !in MissingGenres(t, gcols);
    }
  }

  /** `top_by_genres(genres, k)`: fails with the list of unknown genres,
      in request order, when any normalised genre is not a column; otherwise
      one record per row of a ranking `IsGenreRanking` allows, in its order. */
  method TopByGenres(t: MetaTable, genres: seq<string>, k: int) returns (r: Result<seq<GenreRecord>>)
    requires WellFormed(t)
    ensures var missing := MissingGenres(t, NormalizeGenres(genres));
      && (r.Failure? <==> missing != [])
      && (r.Failure? ==> r.error == UnknownGenresMessage(missing))
    ensures r.Success? ==>
      exists rows :: IsGenreRanking(t, NormalizeGenres(genres), k, rows)
        && |r.value| == |rows|
        && forall j :: 0 <= j < |rows| ==> r.value[j] == GenreRecordOf(t.rows[rows[j]])
    ensures r.Success? ==> forall i, j :: 0 <= i < j < |r.value| ==> r.value[i].score >= r.value[j].score
    ensures r.Success? && k >= 0 ==> |r.value| <= k
    ensures r.Success? ==> forall j :: 0 <= j < |r.value| ==> r.value[j].similarity == None
  {
    var gcols := NormalizeGenres(genres);
    var missing := MissingGenres(t, gcols);
    if missing != [] {
      return Failure(UnknownGenresMessage(missing));
    }
    NoneMissing(t, gcols);
    var subset := GenreRanking(t, gcols, k);
    var records := BuildRecords(t, subset);
    return Success(records);
  }

  /** Genre names are matched whatever their case and surrounding spaces. */
  lemma NormalizeGenresIgnoresCase(genres: seq<string>)
    ensures NormalizeGenres(seq(|genres|, i requires 0 <= i < |genres| => Lower(genres[i]))) == NormalizeGenres(genres)
  {
    forall i | 0 <= i < |genres| ensures Lower(Strip(Lower(genres[i]))) == Lower(Strip(genres[i])) {
      StripLowerCommute(genres[i]);
      LowerIdempotent(Strip(genres[i]));
    }
  }
}
