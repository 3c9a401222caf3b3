/**
  Row selection over a column of scores, as numpy and pandas do it:
  turning a boolean mask into row positions, `argsort`, the recommender's
  `scores.argsort()[-k:][::-1]` and the genre ranking's
  `sort_values(ascending=False).head(k)`.

  numpy's default `argsort` and pandas' default `sort_values` are not stable,
  so the order among equal scores is not fixed. `Argsort` below is one
  ascending order; everything built on it promises only what any ascending
  order guarantees.
 */
module Selection {

  /** Every position in `l` is a row of a table with `n` rows. */
  predicate InRange(l: seq<nat>, n: nat) {
    forall i :: 0 <= i < |l| ==> l[i] < n
  }

  /** No row is listed twice. */
  predicate Distinct(l: seq<nat>) {
    forall i, j :: 0 <= i < j < |l| ==> l[i] != l[j]
  }

  /** The rows are listed in catalogue order. */
  predicate Increasing(l: seq<nat>) {
    forall i, j :: 0 <= i < j < |l| ==> l[i] < l[j]
  }

  /** The rows are listed from the lowest score to the highest. */
  predicate Ascending(s: seq<real>, l: seq<nat>)
    requires InRange(l, |s|)
  {
    forall i, j :: 0 <= i < j < |l| ==> s[l[i]] <= s[l[j]]
  }

  /** The rows are listed from the highest score to the lowest. */
  predicate NonIncreasing(s: seq<real>, l: seq<nat>)
    requires InRange(l, |s|)
  {
    forall i, j :: 0 <= i < j < |l| ==> s[l[i]] >= s[l[j]]
  }

  /** `l` lists distinct rows, best first, and no row left out scores higher
      than any row listed. */
  predicate IsTop(s: seq<real>, l: seq<nat>) {
    && InRange(l, |s|)
    && Distinct(l)
    && NonIncreasing(s, l)
    && forall i, j :: 0 <= i < |l| && 0 <= j < |s| && j !in l ==> s[j] <= s[l[i]]
  }

  /** `d` lists every row of `s` exactly once, best first. */
  predicate IsDescendingOrder(s: seq<real>, d: seq<nat>) {
    && |d| == |s|
    && InRange(d, |s|)
    && Distinct(d)
    && NonIncreasing(s, d)
    && forall i :: 0 <= i < |s| ==> i in d
  }

  /** Python's normalisation of a slice bound `i` on a sequence of length
      `n`: a negative bound counts from the end, and both ends are clamped. */
  function SliceBound(n: nat, i: int): (b: nat)
    ensures b <= n
    ensures 0 <= i <= n ==> b == i
    ensures i > n ==> b == n
    ensures i < 0 && n + i >= 0 ==> b == n + i
    ensures i < 0 && n + i < 0 ==> b == 0
  {
    if i < 0 then (if n + i < 0 then 0 else n + i)
    else if i > n then n
    else i
  }

  /** The positions where a boolean column is true, in catalogue order
      (`df[mask]` keeps exactly these rows). */
  function Where(p: seq<bool>): (r: seq<nat>)
    ensures InRange(r, |p|) && Increasing(r)
    ensures forall i :: 0 <= i < |p| ==> (p[i] <==> i in r)
    decreases |p|
  {
    if p == [] then []
    else
      var r := Where(p[..|p| - 1]);
      if p[|p| - 1] then r + [|p| - 1] else r
  }

  /** The first position `Where` lists is the first row where the mask is
      true. */
  lemma WhereFirst(p: seq<bool>)
    requires Where(p) != []
    ensures p[Where(p)[0]]
    ensures forall j :: 0 <= j < |p| && p[j] ==> Where(p)[0] <= j
  {
    var r := Where(p);
    forall j | 0 <= j < |p| && p[j] ensures r[0] <= j {
      var q :| 0 <= q < |r| && r[q] == j;
      if q > 0 {
        assert r[0] < r[q];
      }
    }
  }

  /** `df[p].head(limit)` for `limit >= 0`, as row positions: the first
      `limit` rows where `p` is true, in catalogue order; a row where `p` is
      true is left out only when `limit` earlier rows were kept. */
  function HeadWhere(p: seq<bool>, limit: nat): (r: seq<nat>)
    ensures InRange(r, |p|) && Increasing(r)
    ensures |r| <= limit
    ensures forall j :: 0 <= j < |r| ==> p[r[j]]
    ensures forall i :: 0 <= i < |p| && p[i] && i !in r ==> |r| == limit && forall j :: 0 <= j < |r| ==> r[j] < i
  {
    var hits := Where(p);
    var r := hits[..SliceBound(|hits|, limit)];
    forall j | 0 <= j < |r| ensures p[r[j]] {
      assert r[j] == hits[j];
    }
    forall i | 0 <= i < |p| && p[i] && i !in r
      ensures |r| == limit && forall j :: 0 <= j < |r| ==> r[j] < i
    {
      assert i in hits;
      var q :| 0 <= q < |hits| && hits[q] == i;
      assert q >= |r|;
    }
    r
  }

  /** Inserts row `x` into the ascending list `l`, before the first row
      that scores at least as much. */
  function Insert(s: seq<real>, x: nat, l: seq<nat>): (r: seq<nat>)
    requires x < |s| && InRange(l, |s|)
    ensures |r| == |l| + 1 && InRange(r, |s|)
    ensures forall e :: e in r <==> e == x || e in l
    decreases |l|
  {
    if l == [] || s[x] <= s[l[0]] then [x] + l
    else [l[0]] + Insert(s, x, l[1..])
  }

  /** Inserting into an ascending list keeps it ascending. */
  lemma {:induction false} InsertAscending(s: seq<real>, x: nat, l: seq<nat>)
    requires x < |s| && InRange(l, |s|) && Ascending(s, l)
    ensures Ascending(s, Insert(s, x, l))
    decreases |l|
  {
    if l != [] && s[x] > s[l[0]] {
      var rest := Insert(s, x, l[1..]);
      InsertAscending(s, x, l[1..]);
      forall j | 0 <= j < |rest| ensures s[l[0]] <= s[rest[j]] {
        assert rest[j] in rest;
        if rest[j] != x {
          var q :| 0 <= q < |l[1..]| && l[1..][q] == rest[j];
          assert l[q + 1] == rest[j];
        }
      }
    }
  }

  /** Inserting a new row into a list of distinct rows keeps them distinct. */
  lemma {:induction false} InsertDistinct(s: seq<real>, x: nat, l: seq<nat>)
    requires x < |s| && InRange(l, |s|) && Distinct(l) && x !in l
    ensures Distinct(Insert(s, x, l))
    decreases |l|
  {
    if l != [] && s[x] > s[l[0]] {
      InsertDistinct(s, x, l[1..]);
      assert l[0] !in Insert(s, x, l[1..]);
    }
  }

  /** Rows `0 .. m-1` in ascending order of score. */
  function ArgsortPrefix(s: seq<real>, m: nat): (r: seq<nat>)
    requires m <= |s|
    ensures |r| == m && InRange(r, m) && InRange(r, |s|)
    ensures forall i :: 0 <= i < m ==> i in r
    ensures Distinct(r) && Ascending(s, r)
  {
    if m == 0 then []
    else
      var l := ArgsortPrefix(s, m - 1);
      var r := Insert(s, m - 1, l);
      InsertAscending(s, m - 1, l);
      InsertDistinct(s, m - 1, l);
      assert forall j :: 0 <= j < |r| ==> r[j] < m by {
        forall j | 0 <= j < |r| ensures r[j] < m {
          assert r[j] in r;
          if r[j] != m - 1 {
            var q :| 0 <= q < |l| && l[q] == r[j];
          }
        }
      }
      assert forall i :: 0 <= i < m - 1 ==> i in l;
      r
  }

  /** `s.argsort()`: every row exactly once, lowest score first. */
  function Argsort(s: seq<real>): (r: seq<nat>)
    ensures |r| == |s| && InRange(r, |s|) && Distinct(r) && Ascending(s, r)
    ensures forall i :: 0 <= i < |s| ==> i in r
  {
    ArgsortPrefix(s, |s|)
  }

  /** `l[::-1]` */
  function Reverse(l: seq<nat>): seq<nat> {
    seq(|l|, i requires 0 <= i < |l| => l[|l| - 1 - i])
  }

  /** Reversing an ascending order of all rows gives a descending one. */
  lemma DescendingOrder(s: seq<real>)
    ensures IsDescendingOrder(s, Reverse(Argsort(s)))
  {
    var a := Argsort(s);
    var d := Reverse(a);
    forall i | 0 <= i < |s| ensures i in d {
      assert i in a;
      var p :| 0 <= p < |a| && a[p] == i;
      assert d[|a| - 1 - p] == i;
    }
  }

  /** The first `m` rows of a descending order are the `m` best. */
  lemma {:induction false} PrefixIsTop(s: seq<real>, d: seq<nat>, m: nat)
    requires IsDescendingOrder(s, d) && m <= |d|
    ensures IsTop(s, d[..m])
  {
    var r := d[..m];
    forall i, j | 0 <= i < |r| && 0 <= j < |s| && j !in r
      ensures s[j] <= s[r[i]]
    {
      assert j in d;
      var q :| 0 <= q < |d| && d[q] == j;
    }
  }

  /** The last elements of a list, reversed, are the first elements of the
      reversed list. */
  lemma ReverseSuffix(a: seq<nat>, st: nat)
    requires st <= |a|
    ensures Reverse(a[st..]) == Reverse(a)[..|a| - st]
  {
  }

  /** `s.argsort()[-k:][::-1]`, the slice taken literally for every `k`:
      for `k >= 1` it is the `min(k, n)` best rows, for `k == 0` (where
      `-0 == 0`) every row, and for `k < 0` all but the `-k` worst rows. */
  function TopK(s: seq<real>, k: int): (r: seq<nat>)
    ensures |r| == |s| - SliceBound(|s|, -k)
    ensures k >= 1 ==> |r| == if k <= |s| then k else |s|
    ensures IsTop(s, r)
  {
    var a := Argsort(s);
    var st := SliceBound(|s|, -k);
    ReverseSuffix(a, st);
    DescendingOrder(s);
    PrefixIsTop(s, Reverse(a), |a| - st);
    Reverse(a[st..])
  }

  /** `sort_values(ascending=False).head(k)`, as row positions: for
      `k >= 0` the `min(k, n)` best rows, for `k < 0` all but the last `-k`. */
  function SortedHead(s: seq<real>, k: int): (r: seq<nat>)
    ensures |r| == SliceBound(|s|, k)
    ensures k >= 0 ==> |r| == if k <= |s| then k else |s|
    ensures IsTop(s, r)
  {
    var d := Reverse(Argsort(s));
    DescendingOrder(s);
    PrefixIsTop(s, d, SliceBound(|s|, k));
    d[..SliceBound(|s|, k)]
  }

  /** A set has no more elements than a set that contains it. */
  lemma {:induction false} SubsetCard(a: set<nat>, b: set<nat>)
    requires a <= b
    ensures |a| <= |b|
    decreases a
  {
    if a != {} {
      var x :| x in a;
      SubsetCard(a - {x}, b - {x});
    }
  }

  /** The rows a list names. */
  function Elements(r: seq<nat>): set<nat> {
    set x | x in r
  }

  /** A list of rows names at most as many rows as it is long. */
  lemma {:induction false} ElementsCard(r: seq<nat>)
    ensures |Elements(r)| <= |r|
    decreases |r|
  {
    if r != [] {
      var q := r[..|r| - 1];
      var last := r[|r| - 1];
      ElementsCard(q);
      assert r == q + [last];
      assert Elements(r) == Elements(q) + {last};
    }
  }

  /** A list of distinct rows names as many rows as it is long. */
  lemma {:induction false} DistinctCard(r: seq<nat>)
    requires Distinct(r)
    ensures |Elements(r)| == |r|
    decreases |r|
  {
    if r != [] {
      var q := r[..|r| - 1];
      DistinctCard(q);
      assert r == q + [r[|r| - 1]];
      assert Elements(r) == Elements(q) + {r[|r| - 1]};
      assert r[|r| - 1] !in Elements(q);
    }
  }

  /** A list of distinct rows of an `n`-row table that misses one of them is
      shorter than `n`. */
  lemma DistinctMissesOne(l: seq<nat>, n: nat, q: nat)
    requires InRange(l, n) && Distinct(l) && q < n && q !in l
    ensures |l| < n
  {
    var all: seq<nat> := seq(n, i requires 0 <= i < n => i);
    assert all[q] == q;
    assert Elements(l) <= Elements(all) - {q} by {
      forall x | x in Elements(l) ensures x in Elements(all) - {q} {
        assert all[x] == x;
      }
    }
    DistinctCard(l);
    ElementsCard(all);
    SubsetCard(Elements(l), Elements(all) - {q});
  }

  /** A selection of best rows as long as the table holds every row,
      whatever its score and whatever the order among ties. */
  lemma TopTakesAll(s: seq<real>, l: seq<nat>)
    requires IsTop(s, l) && |l| == |s|
    ensures forall i :: 0 <= i < |s| ==> i in l
  {
    forall i | 0 <= i < |s| ensures i in l {
      if i !in l {
        DistinctMissesOne(l, |s|, i);
      }
    }
  }

  /** When at least as many rows score above `floor` as are selected, none
      of the selected rows scores `floor` or less, whatever the order among
      ties. */
  lemma TopAboveFloor(s: seq<real>, l: seq<nat>, floor: real)
    requires IsTop(s, l)
    requires |set i | 0 <= i < |s| && s[i] > floor| >= |l|
    ensures forall j :: 0 <= j < |l| ==> s[l[j]] > floor
  {
    var above := set i | 0 <= i < |s| && s[i] > floor;
    var chosen := Elements(l);
    forall j | 0 <= j < |l| ensures s[l[j]] > floor {
      if s[l[j]] <= floor {
        var low := l[j];
        assert above <= chosen - {low} by {
          forall i | i in above ensures i in chosen - {low} {
          }
        }
        SubsetCard(above, chosen - {low});
        ElementsCard(l);
        assert false;
      }
    }
  }
}
