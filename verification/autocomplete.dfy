/**
  The `/autocomplete` endpoint: the first catalogue titles, in catalogue
  order, whose lower-cased form starts with the lower-cased, stripped prefix.
 */
module Autocomplete {
  import opened Catalogue
  import opened Text
  import opened Selection

  /** One suggestion: the title as stored and its poster URL. */
  datatype Suggestion = Suggestion(title: Option<string>, posterUrl: Option<string>)

  /** The `title_lower` column: a missing title becomes `""` first. */
  function TitleLower(row: MetaRow): string {
    Lower(OrEmpty(row.title))
  }

  /** `prefix.lower().strip()` */
  function NormalizePrefix(prefix: string): string {
    Strip(Lower(prefix))
  }

  /** `title_lower.str.startswith(prefix_lc)` at one row. */
  predicate Matches(row: MetaRow, prefixLc: string) {
    StartsWith(TitleLower(row), prefixLc)
  }

  /** The query parameters the endpoint accepts: a non-empty prefix and a
      limit between 1 and 50. */
  predicate ValidQuery(prefix: string, limit: int) {
    |prefix| >= 1 && 1 <= limit <= 50
  }

  /** The rows `df[startswith].head(limit)` keeps: matching rows only, in
      catalogue order, at most `limit` of them, and a matching row is left
      out only when `limit` earlier matching rows were kept. */
  function AutocompleteRows(t: MetaTable, prefix: string, limit: int): (r: seq<nat>)
    requires ValidQuery(prefix, limit)
    ensures InRange(r, |t.rows|) && Increasing(r)
    ensures |r| <= limit
    ensures forall j :: 0 <= j < |r| ==> Matches(t.rows[r[j]], NormalizePrefix(prefix))
    ensures forall i :: 0 <= i < |t.rows| && Matches(t.rows[i], NormalizePrefix(prefix)) && i !in r ==>
      |r| == limit && forall j :: 0 <= j < |r| ==> r[j] < i
  {
    var p := NormalizePrefix(prefix);
    var flags := seq(|t.rows|, i requires 0 <= i < |t.rows| => Matches(t.rows[i], p));
    assert forall i :: 0 <= i < |t.rows| ==> (flags[i] <==> Matches(t.rows[i], p));
    HeadWhere(flags, limit)
  }

  function SuggestionOf(row: MetaRow): Suggestion {
    Suggestion(row.title, row.imageUrl)
  }

  /** `autocomplete_route(prefix, limit)`: one suggestion per row
      `AutocompleteRows` keeps, in its order. */
  function Autocomplete(t: MetaTable, prefix: string, limit: int): (r: seq<Suggestion>)
    requires ValidQuery(prefix, limit)
    ensures |r| <= limit
    ensures forall j :: 0 <= j < |r| ==> StartsWith(Lower(OrEmpty(r[j].title)), NormalizePrefix(prefix))
    ensures var rows := AutocompleteRows(t, prefix, limit);
      |r| == |rows| && forall j :: 0 <= j < |r| ==> r[j] == SuggestionOf(t.rows[rows[j]])
  {
    var rows := AutocompleteRows(t, prefix, limit);
    seq(|rows|, j requires 0 <= j < |rows| => SuggestionOf(t.rows[rows[j]]))
  }

  /** A prefix of whitespace only matches every title, even a missing one,
      so the endpoint returns the first `limit` rows of the catalogue. */
  lemma BlankPrefixTakesFirstRows(t: MetaTable, prefix: string, limit: int)
    requires ValidQuery(prefix, limit)
    requires forall i :: 0 <= i < |prefix| ==> IsSpace(prefix[i])
    ensures var r := AutocompleteRows(t, prefix, limit);
      && |r| == (if limit <= |t.rows| then limit else |t.rows|)
      && forall j :: 0 <= j < |r| ==> r[j] == j
  {
    var r := AutocompleteRows(t, prefix, limit);
    LowerKeepsSpaces(prefix);
    StripSpec(Lower(prefix));
    assert NormalizePrefix(prefix) == [];
    assert forall i :: 0 <= i < |t.rows| ==> i in r || forall q :: 0 <= q < |r| ==> r[q] < i;
    forall j | 0 <= j < |r| ensures r[j] == j {
      IncreasingFromZero(r, |t.rows|, j);
    }
    if |r| > 0 {
      assert r[|r| - 1] == |r| - 1;
    }
  }

  /** An increasing list of rows that leaves out a row only after its last
      element starts 0, 1, 2, ... */
  lemma {:induction false} IncreasingFromZero(r: seq<nat>, n: nat, j: nat)
    requires Increasing(r) && InRange(r, n)
    requires forall i :: 0 <= i < n ==> i in r || forall q :: 0 <= q < |r| ==> r[q] < i
    requires j < |r|
    ensures r[j] == j
    decreases j
  {
    IncreasingBound(r, j);
    if r[j] > j {
      if j in r {
        var q :| 0 <= q < |r| && r[q] == j;
        assert q < j;
        IncreasingFromZero(r, n, q);
      }
    }
  }

  /** In an increasing list of naturals, the element at position `j` is at
      least `j`. */
  lemma {:induction false} IncreasingBound(r: seq<nat>, j: nat)
    requires Increasing(r) && j < |r|
    ensures r[j] >= j
    decreases j
  {
    if j > 0 {
      IncreasingBound(r, j - 1);
    }
  }
}
