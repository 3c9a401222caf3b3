/**
  The content-based recommender: the title index and poster map built when
  the tables are loaded, and `recommend_from_titles`, which resolves the
  liked titles, scores them out with the sentinel, applies the optional
  genre mask, keeps the best `k` rows and attaches a poster to each.

  The similarity of every catalogue row to the liked titles (the normalised
  feature matrix times the normalised profile vector) is floating-point
  linear algebra and enters here as a given column of scores.
 */
module Recommend {
  import opened Catalogue
  import opened Text
  import opened Selection

  /** The score given to rows that must not be recommended. */
  const Sentinel: real := -1.0

  const NoMatchMessage: string := "None of the provided titles matched the catalogue."

  /** The feature table (`anime_features.csv`) as loaded: its title column
      (a "Title" column renamed to "title" when there is no "title"), the
      optional "poster" and "Image URL" columns, and every other column,
      numeric, by name. */
  datatype FeatureTable = FeatureTable(
    title: seq<Option<string>>,
    poster: Option<seq<Option<string>>>,
    imageUrl: Option<seq<Option<string>>>,
    numeric: map<string, seq<real>>
  )

  function Rows(t: FeatureTable): nat {
    |t.title|
  }

  /** Every column has one cell per row. */
  predicate WellFormedFeatures(t: FeatureTable) {
    && (t.poster.Some? ==> |t.poster.value| == |t.title|)
    && (t.imageUrl.Some? ==> |t.imageUrl.value| == |t.title|)
    && (forall c :: c in t.numeric ==> |t.numeric[c]| == |t.title|)
  }

  /** `df.columns.difference(["title", "poster", "Image URL", "MAL_ID"])`,
      used only for membership. */
  function VecCols(t: FeatureTable): set<string> {
    t.numeric.Keys - {"title", "poster", "Image URL", "MAL_ID"}
  }

  /** One recommended row: its title, its poster and its score. */
  datatype Recommendation = Recommendation(title: Option<string>, poster: Option<string>, score: real)

  // ---------------------------------------------------------------------
  // Title-keyed dictionaries
  // ---------------------------------------------------------------------

  /** The key a title gets in a title-keyed dictionary: `t.lower()` (a
      missing title read as ""), and none when the title is blank after
      stripping. The key itself is not stripped. */
  function TitleKey(title: Option<string>): Option<string> {
    var t := OrEmpty(title);
    if Strip(t) != [] then Some(Lower(t)) else None
  }

  /** The keys of a whole title column. */
  function TitleKeys(titles: seq<Option<string>>): seq<Option<string>> {
    seq(|titles|, i requires 0 <= i < |titles| => TitleKey(titles[i]))
  }

  /** Row `i` of a title column contributes the entry `key`. */
  predicate KeyedAt(titles: seq<Option<string>>, i: nat, key: string)
    requires i < |titles|
  {
    TitleKey(titles[i]) == Some(key)
  }

  /** `{key: v for key, v in zip(keys, vals) if key}`: later rows overwrite
      earlier ones with the same key. */
  function IndexBy<V>(keys: seq<Option<string>>, vals: seq<V>): map<string, V>
    requires |keys| == |vals|
    decreases |keys|
  {
    if keys == [] then map[]
    else
      var n := |keys| - 1;
      var m := IndexBy(keys[..n], vals[..n]);
      if keys[n].Some? then m[keys[n].value := vals[n]] else m
  }

  /** A key is present exactly when some row has it, and it holds the value
      of the last such row. */
  lemma {:induction false} IndexByLastWins<V>(keys: seq<Option<string>>, vals: seq<V>, key: string)
    requires |keys| == |vals|
    ensures key in IndexBy(keys, vals) <==> exists i :: 0 <= i < |keys| && keys[i] == Some(key)
    ensures key in IndexBy(keys, vals) ==>
      exists i :: 0 <= i < |keys| && keys[i] == Some(key) && IndexBy(keys, vals)[key] == vals[i]
        && forall j :: i < j < |keys| ==> keys[j] != Some(key)
    decreases |keys|
  {
    if keys != [] {
      var n := |keys| - 1;
      var pre, preVals := keys[..n], vals[..n];
      IndexByLastWins(pre, preVals, key);
      assert forall i :: 0 <= i < n ==> pre[i] == keys[i];
      if keys[n] != Some(key) && key in IndexBy(keys, vals) {
        var i :| 0 <= i < n && pre[i] == Some(key) && IndexBy(pre, preVals)[key] == preVals[i]
          && forall j :: i < j < n ==> pre[j] != Some(key);
        assert vals[i] == preVals[i];
      }
    }
  }

  /** Row positions `0 .. n-1`. */
  function Positions(n: nat): seq<nat> {
    seq(n, i requires 0 <= i < n => i as nat)
  }

  /** `title_to_idx` in `_load_features`. */
  function TitleIndex(t: FeatureTable): map<string, nat> {
    IndexBy(TitleKeys(t.title), Positions(Rows(t)))
  }

  /** Every title that is not blank has the key `t.lower()`, and a key names
      the last row keyed under it: on duplicate keys the larger row wins. */
  lemma TitleIndexSpec(t: FeatureTable, key: string)
    ensures key in TitleIndex(t) <==> exists i :: 0 <= i < Rows(t) && KeyedAt(t.title, i, key)
    ensures key in TitleIndex(t) ==>
      var i := TitleIndex(t)[key];
      i < Rows(t) && KeyedAt(t.title, i, key) && forall j :: i < j < Rows(t) ==> !KeyedAt(t.title, j, key)
  {
    var keys, pos := TitleKeys(t.title), Positions(Rows(t));
    IndexByLastWins(keys, pos, key);
    assert forall i :: 0 <= i < Rows(t) ==> (KeyedAt(t.title, i, key) <==> keys[i] == Some(key));
    if key in TitleIndex(t) {
      var i :| 0 <= i < |keys| && keys[i] == Some(key) && IndexBy(keys, pos)[key] == pos[i]
        && forall j :: i < j < |keys| ==> keys[j] != Some(key);
      assert pos[i] == i;
    }
  }

  /** Every position the title index holds is a row of the table. */
  lemma TitleIndexInRange(t: FeatureTable)
    ensures forall key :: key in TitleIndex(t) ==> TitleIndex(t)[key] < Rows(t)
  {
    forall key | key in TitleIndex(t) ensures TitleIndex(t)[key] < Rows(t) {
      TitleIndexSpec(t, key);
    }
  }

  /** Resolving against the title index gives rows of the table. */
  lemma ResolveInRange(t: FeatureTable, liked: seq<string>)
    ensures InRange(Resolve(TitleIndex(t), liked), Rows(t))
  {
    var r := Resolve(TitleIndex(t), liked);
    TitleIndexInRange(t);
    ResolveSpec(TitleIndex(t), liked);
    forall p | 0 <= p < |r| ensures r[p] < Rows(t) {
      assert r[p] in r;
    }
  }

  /** The titles of the metadata table. */
  function MetaTitles(meta: MetaTable): seq<Option<string>> {
    seq(|meta.rows|, i requires 0 <= i < |meta.rows| => meta.rows[i].title)
  }

  /** `_load_meta`: lower-cased title to "Image URL" (missing read as ""). */
  function PosterMap(meta: MetaTable): map<string, string> {
    IndexBy(TitleKeys(MetaTitles(meta)), seq(|meta.rows|, i requires 0 <= i < |meta.rows| => OrEmpty(meta.rows[i].imageUrl)))
  }

  // ---------------------------------------------------------------------
  // Resolving the liked titles
  // ---------------------------------------------------------------------

  /** `t.lower().strip()` */
  function Normalize(liked: string): string {
    Strip(Lower(liked))
  }

  /** `[title_to_idx[t] for t in liked if t.lower().strip() in title_to_idx]`:
      the rows of the liked titles that resolve, in input order and with
      duplicates; the others are dropped silently. */
  function Resolve(index: map<string, nat>, liked: seq<string>): seq<nat>
    decreases |liked|
  {
    if liked == [] then []
    else
      var key := Normalize(liked[0]);
      (if key in index then [index[key]] else []) + Resolve(index, liked[1..])
  }

  /** Resolution fails exactly when no liked title resolves; every liked
      title that resolves contributes its row, and every row in the result
      comes from some liked title. */
  lemma {:induction false} ResolveSpec(index: map<string, nat>, liked: seq<string>)
    ensures var r := Resolve(index, liked);
      && |r| <= |liked|
      && (r == [] <==> forall j :: 0 <= j < |liked| ==> Normalize(liked[j]) !in index)
      && (forall j :: 0 <= j < |liked| && Normalize(liked[j]) in index ==> index[Normalize(liked[j])] in r)
      && (forall x :: x in r ==>
            exists j :: 0 <= j < |liked| && Normalize(liked[j]) in index && index[Normalize(liked[j])] == x)
    decreases |liked|
  {
    if liked != [] {
      ResolveSpec(index, liked[1..]);
      assert forall j :: 1 <= j < |liked| ==> liked[j] == liked[1..][j - 1];
      var r := Resolve(index, liked);
      forall x | x in r
        ensures exists j :: 0 <= j < |liked| && Normalize(liked[j]) in index && index[Normalize(liked[j])] == x
      {
        if x !in Resolve(index, liked[1..]) {
          assert Normalize(liked[0]) in index && index[Normalize(liked[0])] == x;
        } else {
          var j :| 0 <= j < |liked[1..]| && Normalize(liked[1..][j]) in index && index[Normalize(liked[1..][j])] == x;
          assert liked[1..][j] == liked[j + 1];
        }
      }
    }
  }

  /** Resolving a concatenation resolves each part: the result keeps the
      input order and its duplicates. */
  lemma {:induction false} ResolveAppend(index: map<string, nat>, a: seq<string>, b: seq<string>)
    ensures Resolve(index, a + b) == Resolve(index, a) + Resolve(index, b)
    decreases |a|
  {
    if a == [] {
      assert a + b == b;
    } else {
      assert (a + b)[0] == a[0];
      assert (a + b)[1..] == a[1..] + b;
      ResolveAppend(index, a[1..], b);
    }
  }

  /** A normalised liked title neither starts nor ends with whitespace. */
  lemma NormalizeUnpadded(liked: string)
    ensures var k := Normalize(liked); k == [] || (!IsSpace(k[0]) && !IsSpace(k[|k| - 1]))
  {
    StripSpec(Lower(liked));
  }

  /** A title with whitespace at either end never lower-cases to a
      normalised liked title. */
  lemma PaddedKeyNeverNormalized(x: string, liked: string)
    requires x != [] && (IsSpace(x[0]) || IsSpace(x[|x| - 1]))
    ensures Lower(x) != Normalize(liked)
  {
    LowerKeepsSpaces(x);
    NormalizeUnpadded(liked);
  }

  /** A catalogue title with whitespace around it is keyed with that
      whitespace (keys are lower-cased, not stripped) while every lookup is
      stripped, so its row can never be liked. */
  lemma PaddedTitleNeverResolves(t: FeatureTable, liked: seq<string>, i: nat)
    requires i < Rows(t) && t.title[i].Some?
    requires var x := t.title[i].value; x != [] && (IsSpace(x[0]) || IsSpace(x[|x| - 1]))
    ensures i !in Resolve(TitleIndex(t), liked)
  {
    var index := TitleIndex(t);
    var r := Resolve(index, liked);
    ResolveSpec(index, liked);
    if i in r {
      var j :| 0 <= j < |liked| && Normalize(liked[j]) in index && index[Normalize(liked[j])] == i;
      var key := Normalize(liked[j]);
      TitleIndexSpec(t, key);
      assert KeyedAt(t.title, i, key);
      PaddedKeyNeverNormalized(t.title[i].value, liked[j]);
      assert false;
    }
  }

  // ---------------------------------------------------------------------
  // Scores: sentinel for liked rows, genre mask
  // ---------------------------------------------------------------------

  /** `f"genre_{g.strip().title()}"` */
  function GenreColumn(g: string): string {
    "genre_" + Title(Strip(g))
  }

  /** The requested genre columns that exist, in request order. */
  function GenreColumns(t: FeatureTable, filter: seq<string>): (r: seq<string>)
    ensures forall c :: c in r ==> c in VecCols(t)
    decreases |filter|
  {
    if filter == [] then []
    else
      var c := GenreColumn(filter[0]);
      (if c in VecCols(t) then [c] else []) + GenreColumns(t, filter[1..])
  }

  /** A requested genre's column is used exactly when it is a feature
      column, and no column is used when none of them is. */
  lemma {:induction false} GenreColumnsSpec(t: FeatureTable, filter: seq<string>)
    ensures var r := GenreColumns(t, filter);
      && (forall j :: 0 <= j < |filter| ==> (GenreColumn(filter[j]) in r <==> GenreColumn(filter[j]) in VecCols(t)))
      && (r == [] <==> forall j :: 0 <= j < |filter| ==> GenreColumn(filter[j]) !in VecCols(t))
    decreases |filter|
  {
    if filter != [] {
      GenreColumnsSpec(t, filter[1..]);
      assert forall j :: 1 <= j < |filter| ==> filter[j] == filter[1..][j - 1];
    }
  }

  /** `df[gcols].sum(axis=1)` at row `i`. */
  function RowSum(t: FeatureTable, cols: seq<string>, i: nat): real
    requires WellFormedFeatures(t) && i < Rows(t)
    requires forall c :: c in cols ==> c in t.numeric
  {
    if cols == [] then 0.0 else t.numeric[cols[0]][i] + RowSum(t, cols[1..], i)
  }

  /** The genre mask, or `None` when no mask applies: no filter, an empty
      one, or one naming no existing genre column. */
  function GenreMask(t: FeatureTable, filter: Option<seq<string>>): (m: Option<seq<bool>>)
    requires WellFormedFeatures(t)
    ensures m.Some? ==> |m.value| == Rows(t)
  {
    if filter.None? || filter.value == [] then None
    else
      var gcols := GenreColumns(t, filter.value);
      if gcols == [] then None
      else Some(seq(Rows(t), i requires 0 <= i < Rows(t) => RowSum(t, gcols, i) > 0.0))
  }

  /** The mask is left out exactly when the filter is missing or names no
      genre column that exists; otherwise a row passes it exactly when the
      existing requested genre columns sum to more than zero on that row. */
  lemma GenreMaskSpec(t: FeatureTable, filter: Option<seq<string>>)
    requires WellFormedFeatures(t)
    ensures var m := GenreMask(t, filter);
      (m.None? <==> filter.None? || forall j :: 0 <= j < |filter.value| ==> GenreColumn(filter.value[j]) !in VecCols(t))
    ensures var m := GenreMask(t, filter);
      m.Some? ==> forall i :: 0 <= i < Rows(t) ==> (m.value[i] <==> RowSum(t, GenreColumns(t, filter.value), i) > 0.0)
  {
    if filter.Some? {
      GenreColumnsSpec(t, filter.value);
    }
  }

  /** `scores[rows] = -1.0` */
  function Excluded(s: seq<real>, rows: seq<nat>): seq<real> {
    seq(|s|, i requires 0 <= i < |s| => if i in rows then Sentinel else s[i])
  }

  /** `np.where(keep, s, -1.0)` */
  function Masked(s: seq<real>, keep: seq<bool>): seq<real>
    requires |keep| == |s|
  {
    seq(|s|, i requires 0 <= i < |s| => if keep[i] then s[i] else Sentinel)
  }

  /** The scores after the sentinel and the genre mask: a liked row, and a
      row the mask rejects, score the sentinel; every other row keeps its
      similarity. */
  function FinalScores(t: FeatureTable, sim: seq<real>, liked: seq<nat>, filter: Option<seq<string>>): (r: seq<real>)
    requires WellFormedFeatures(t) && |sim| == Rows(t)
    ensures |r| == |sim|
  {
    var e := Excluded(sim, liked);
    match GenreMask(t, filter)
    case None => e
    case Some(keep) => Masked(e, keep)
  }

  /** Every liked row, and every row the genre mask rejects, scores exactly
      the sentinel; every other row keeps its similarity. */
  lemma FinalScoresSpec(t: FeatureTable, sim: seq<real>, liked: seq<nat>, filter: Option<seq<string>>)
    requires WellFormedFeatures(t) && |sim| == Rows(t)
    ensures var r, m := FinalScores(t, sim, liked, filter), GenreMask(t, filter);
      forall i :: 0 <= i < |r| ==>
        r[i] == if i in liked || (m.Some? && !m.value[i]) then Sentinel else sim[i]
  {
  }

  /** `scores[valid_idxs] = -1.0`, in place. */
  method ExcludeLiked(scores: array<real>, liked: seq<nat>)
    requires InRange(liked, scores.Length)
    modifies scores
    ensures scores[..] == Excluded(old(scores[..]), liked)
  {
    for j := 0 to |liked|
      invariant forall i :: 0 <= i < scores.Length ==>
        scores[i] == if i in liked[..j] then Sentinel else old(scores[i])
    {
      assert liked[..j + 1] == liked[..j] + [liked[j]];
      scores[liked[j]] := Sentinel;
    }
    assert liked[..|liked|] == liked;
  }

  /** `scores = np.where(mask, scores, -1.0)`; the old array is not used
      again, so it is overwritten in place. */
  method ApplyGenreMask(scores: array<real>, keep: seq<bool>)
    requires |keep| == scores.Length
    modifies scores
    ensures scores[..] == Masked(old(scores[..]), keep)
  {
    for i := 0 to scores.Length
      invariant forall j :: 0 <= j < i ==> scores[j] == if keep[j] then old(scores[j]) else Sentinel
      invariant forall j :: i <= j < scores.Length ==> scores[j] == old(scores[j])
    {
      if !keep[i] {
        scores[i] := Sentinel;
      }
    }
  }

  // ---------------------------------------------------------------------
  // Posters
  // ---------------------------------------------------------------------

  /** `df["title"].str.lower().map(poster_map).fillna("")` at one row. */
  function FallbackPoster(title: Option<string>, posterMap: map<string, string>): string {
    if title.Some? && Lower(title.value) in posterMap then posterMap[Lower(title.value)] else ""
  }

  /** The poster of every row: the "poster" column when there is one, else
      the "Image URL" column, else the metadata fallback. */
  function PosterColumn(t: FeatureTable, posterMap: map<string, string>): (r: seq<Option<string>>)
    requires WellFormedFeatures(t)
    ensures |r| == Rows(t)
    ensures t.poster.Some? ==> r == t.poster.value
    ensures t.poster.None? && t.imageUrl.Some? ==> r == t.imageUrl.value
    ensures t.poster.None? && t.imageUrl.None? ==> forall i :: 0 <= i < |r| ==> r[i].Some?
  {
    if t.poster.Some? then t.poster.value
    else if t.imageUrl.Some? then t.imageUrl.value
    else seq(Rows(t), i requires 0 <= i < Rows(t) => Some(FallbackPoster(t.title[i], posterMap)))
  }

  /** `poster_map` has a key exactly when some metadata row with a non-blank
      title lower-cases to it, and maps it to the "Image URL" (missing read
      as "") of the last such row. */
  lemma PosterMapSpec(meta: MetaTable, key: string)
    ensures key in PosterMap(meta) <==> exists j :: 0 <= j < |meta.rows| && KeyedAt(MetaTitles(meta), j, key)
    ensures key in PosterMap(meta) ==>
      exists j :: 0 <= j < |meta.rows| && KeyedAt(MetaTitles(meta), j, key)
        && PosterMap(meta)[key] == OrEmpty(meta.rows[j].imageUrl)
        && forall j' :: j < j' < |meta.rows| ==> !KeyedAt(MetaTitles(meta), j', key)
  {
    var keys := TitleKeys(MetaTitles(meta));
    var urls := seq(|meta.rows|, j requires 0 <= j < |meta.rows| => OrEmpty(meta.rows[j].imageUrl));
    IndexByLastWins(keys, urls, key);
    assert forall j :: 0 <= j < |meta.rows| ==> (KeyedAt(MetaTitles(meta), j, key) <==> keys[j] == Some(key));
    if key in PosterMap(meta) {
      var j :| 0 <= j < |keys| && keys[j] == Some(key) && IndexBy(keys, urls)[key] == urls[j]
        && forall j' :: j < j' < |keys| ==> keys[j'] != Some(key);
      assert urls[j] == OrEmpty(meta.rows[j].imageUrl);
    }
  }

  /** Without poster columns, a row's poster is the "Image URL" (missing
      read as "") of the last metadata row whose non-blank title lower-cases
      to the same key, and "" when there is none (or the title is missing). */
  lemma PosterFallbackSpec(t: FeatureTable, meta: MetaTable, i: nat)
    requires WellFormedFeatures(t) && t.poster.None? && t.imageUrl.None? && i < Rows(t)
    ensures var p := PosterColumn(t, PosterMap(meta))[i];
      if t.title[i].Some? && exists j :: 0 <= j < |meta.rows| && KeyedAt(MetaTitles(meta), j, Lower(t.title[i].value)) then
        exists j :: 0 <= j < |meta.rows| && KeyedAt(MetaTitles(meta), j, Lower(t.title[i].value))
          && p == Some(OrEmpty(meta.rows[j].imageUrl))
          && forall j' :: j < j' < |meta.rows| ==> !KeyedAt(MetaTitles(meta), j', Lower(t.title[i].value))
      else p == Some("")
  {
    var p := PosterColumn(t, PosterMap(meta))[i];
    assert p == Some(FallbackPoster(t.title[i], PosterMap(meta)));
    if t.title[i].Some? {
      PosterMapSpec(meta, Lower(t.title[i].value));
    }
  }

  // ---------------------------------------------------------------------
  // recommend_from_titles
  // ---------------------------------------------------------------------

  /** Lines 70-80 of `recommend_from_titles` on the score array: starting
      from the similarities, liked rows get the sentinel, then the genre mask
      (when one applies) gives the sentinel to every row it rejects. */
  method ScoreRows(features: FeatureTable, similarity: seq<real>, valid: seq<nat>, genreFilter: Option<seq<string>>)
    returns (final: seq<real>)
    requires WellFormedFeatures(features) && |similarity| == Rows(features)
    requires InRange(valid, Rows(features))
    ensures final == FinalScores(features, similarity, valid, genreFilter)
  {
    var n := |similarity|;
    var scores := new real[n](i requires 0 <= i < n => similarity[i]);
    assert scores[..] == similarity;
    ExcludeLiked(scores, valid);
    ghost var mask := GenreMask(features, genreFilter);
    if genreFilter.Some? && genreFilter.value != [] {
      var gcols := GenreColumns(features, genreFilter.value);
      if gcols != [] {
        var keep := seq(Rows(features), i requires 0 <= i < Rows(features) => RowSum(features, gcols, i) > 0.0);
        ApplyGenreMask(scores, keep);
        assert mask == Some(keep);
      } else {
        assert mask == None;
      }
    } else {
      assert mask == None;
    }
    final := scores[..];
  }

  /** `recommend_from_titles(liked_titles, k, genre_filter)`, given the
      similarity of every row to the liked titles. Fails with the
      `ValueError` message exactly when no liked title resolves; otherwise
      returns one record per row of a selection of best rows of the final
      scores, as long as the slice `[-k:]` is, best first. Which of several
      equally scored rows are returned, and in what order, is left open. */
  method RecommendFromTitles(
    features: FeatureTable, meta: MetaTable, similarity: seq<real>,
    likedTitles: seq<string>, k: int, genreFilter: Option<seq<string>>
  ) returns (r: Result<seq<Recommendation>>)
    requires WellFormedFeatures(features) && |similarity| == Rows(features)
    ensures r.Failure? <==> Resolve(TitleIndex(features), likedTitles) == []
    ensures r.Failure? ==> r.error == NoMatchMessage
    ensures r.Success? ==>
      var scores := FinalScores(features, similarity, Resolve(TitleIndex(features), likedTitles), genreFilter);
      var posters := PosterColumn(features, PosterMap(meta));
      && |r.value| == |scores| - SliceBound(|scores|, -k)
      && exists best :: IsTop(scores, best) && |best| == |r.value|
           && forall j :: 0 <= j < |best| ==>
                r.value[j] == Recommendation(features.title[best[j]], posters[best[j]], scores[best[j]])
    ensures r.Success? && k >= 1 ==> |r.value| == if k <= Rows(features) then k else Rows(features)
    ensures r.Success? ==> forall i, j :: 0 <= i < j < |r.value| ==> r.value[i].score >= r.value[j].score
  {
    var valid := Resolve(TitleIndex(features), likedTitles);
    if valid == [] {
      return Failure(NoMatchMessage);
    }
    ResolveInRange(features, likedTitles);
    var final := ScoreRows(features, similarity, valid, genreFilter);
    var best := TopK(final, k);
    var recs := BuildRecommendations(features, PosterColumn(features, PosterMap(meta)), final, best);
    r := Success(recs);
  }

  /** The output frame of `recommend_from_titles`: title, poster and score of
      every selected row, in selection order. */
  method BuildRecommendations(features: FeatureTable, posters: seq<Option<string>>, scores: seq<real>, best: seq<nat>)
    returns (recs: seq<Recommendation>)
    requires |posters| == Rows(features) && |scores| == Rows(features) && IsTop(scores, best)
    ensures |recs| == |best|
    ensures forall j :: 0 <= j < |best| ==>
      recs[j] == Recommendation(features.title[best[j]], posters[best[j]], scores[best[j]])
    ensures forall i, j :: 0 <= i < j < |recs| ==> recs[i].score >= recs[j].score
  {
    recs := seq(|best|, j requires 0 <= j < |best| =>
      Recommendation(features.title[best[j]], posters[best[j]], scores[best[j]]));
  }

  // ---------------------------------------------------------------------
  // Properties of the selection
  // ---------------------------------------------------------------------

  /** When at least `k >= 1` rows score above the sentinel, no row of a
      `[-k:]`-long selection of best rows is a liked row or a row the genre
      mask rejects, whatever the order among ties. */
  lemma ExcludedRowsNotSelected(t: FeatureTable, sim: seq<real>, liked: seq<nat>, filter: Option<seq<string>>,
                                k: int, best: seq<nat>)
    requires WellFormedFeatures(t) && |sim| == Rows(t) && k >= 1
    requires var s := FinalScores(t, sim, liked, filter);
      && IsTop(s, best) && |best| == |s| - SliceBound(|s|, -k)
      && |set i | 0 <= i < |s| && s[i] > Sentinel| >= k
    ensures forall j :: 0 <= j < |best| ==>
      best[j] !in liked && (GenreMask(t, filter).Some? ==> GenreMask(t, filter).value[best[j]])
  {
    TopAboveFloor(FinalScores(t, sim, liked, filter), best, Sentinel);
  }

  /** Liked rows are only scored down, not removed: once `k` reaches the
      number of rows (or is 0), every liked row is in every `[-k:]`-long
      selection of best rows. */
  lemma LikedRowsReturnedWhenKCoversCatalogue(t: FeatureTable, sim: seq<real>, liked: seq<nat>, filter: Option<seq<string>>,
                                              k: int, best: seq<nat>)
    requires WellFormedFeatures(t) && |sim| == Rows(t)
    requires k == 0 || k >= Rows(t)
    requires var s := FinalScores(t, sim, liked, filter);
      IsTop(s, best) && |best| == |s| - SliceBound(|s|, -k)
    ensures forall i :: i in liked && i < Rows(t) ==> i in best
  {
    TopTakesAll(FinalScores(t, sim, liked, filter), best);
  }

  /** The genre filter ignores the case of the genre names it is given. */
  lemma GenreColumnIgnoresCase(g: string)
    ensures GenreColumn(Lower(g)) == GenreColumn(g)
  {
    LowerKeepsSpaces(g);
    assert Strip(Lower(g)) == Lower(Strip(g)) by {
      StripLowerCommute(g);
    }
    TitleIgnoresCase(Strip(g), false);
  }
}
