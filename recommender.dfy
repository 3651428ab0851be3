/** The recommendation step: find the queried movie's row in the catalog, rank
    every row of the catalog by its similarity to that row (highest first, ties
    in ascending row order, as a stable descending sort gives), drop the first
    ranked entry, keep up to the next five, and build one detail record per kept row.
    Similarity scores are only ever compared, so they are modelled as integers. */
module Recommender {
  import opened MovieDetails

  datatype Option<T> = None | Some(value: T)

  function Min(a: int, b: int): int { if a <= b then a else b }
  function Max(a: int, b: int): int { if a <= b then b else a }

  /** The loaded snapshot: the title of each row and the similarity matrix. */
  datatype Catalog = Catalog(titles: seq<string>, similarity: seq<seq<int>>) {
    /** The matrix is square and aligned with the title list. */
    predicate Valid()
    {
      |similarity| == |titles| &&
      forall i :: 0 <= i < |similarity| ==> |similarity[i]| == |titles|
    }
  }

  // ---------------------------------------------------------------------------
  // Looking up the query row

  /** The first row at or after `start` whose title is `query`. */
  function FindFrom(titles: seq<string>, query: string, start: nat): (r: Option<nat>)
    requires start <= |titles|
    ensures r.Some? ==> start <= r.value < |titles| && titles[r.value] == query
    ensures r.Some? ==> forall j :: start <= j < r.value ==> titles[j] != query
    ensures r.None? <==> forall j :: start <= j < |titles| ==> titles[j] != query
    decreases |titles| - start
  {
    if start == |titles| then None
    else if titles[start] == query then Some(start)
    else FindFrom(titles, query, start + 1)
  }

  /** The row of the movie titled `query`: the smallest row whose title equals
      it exactly, and no row at all when the title is not in the catalog. */
  function FindRow(titles: seq<string>, query: string): (r: Option<nat>)
    ensures r.Some? ==> r.value < |titles| && titles[r.value] == query
    ensures r.Some? ==> forall j :: 0 <= j < r.value ==> titles[j] != query
    ensures r.None? <==> query !in titles
  {
    FindFrom(titles, query, 0)
  }

  // ---------------------------------------------------------------------------
  // Ranking

  /** Row `a` is ranked ahead of row `b`: a higher score, or an equal score and a
      smaller row number. */
  predicate Before(row: seq<int>, a: nat, b: nat)
  {
    a < |row| && b < |row| && (row[a] > row[b] || (row[a] == row[b] && a < b))
  }

  /** `s` lists every row number below `n` exactly once. */
  predicate IsIndexPermutation(s: seq<nat>, n: nat)
  {
    |s| == n &&
    (forall k :: 0 <= k < |s| ==> s[k] < n) &&
    (forall j, k :: 0 <= j < k < |s| ==> s[j] != s[k]) &&
    (forall x: nat :: x < n ==> x in s)
  }

  /** `s` is ordered by score, non-increasing, with equal scores in ascending row order. */
  predicate RankedBy(row: seq<int>, s: seq<nat>)
  {
    forall j, k :: 0 <= j < k < |s| ==> Before(row, s[j], s[k])
  }

  /** `s` is the stable descending ranking of all row numbers of `row`. */
  predicate IsRanking(row: seq<int>, s: seq<nat>)
  {
    IsIndexPermutation(s, |row|) && RankedBy(row, s)
  }

  /** Ranks the row numbers of `row` by score, highest first and stable on ties:
      each row number is inserted after every row already ranked whose score is
      at least its own. */
  method RankIndices(row: seq<int>) returns (ranked: seq<nat>)
    ensures IsRanking(row, ranked)
  {
    ranked := [];
    var i := 0;
    while i < |row|
      invariant 0 <= i <= |row|
      invariant |ranked| == i
      invariant forall k :: 0 <= k < |ranked| ==> ranked[k] < i
      invariant forall x: nat :: x < i ==> x in ranked
      invariant forall j, k :: 0 <= j < k < |ranked| ==> Before(row, ranked[j], ranked[k])
    {
      var p := 0;
      while p < |ranked| && row[ranked[p]] >= row[i]
        invariant 0 <= p <= |ranked|
        invariant forall k :: 0 <= k < p ==> row[ranked[k]] >= row[i]
      {
        p := p + 1;
      }
      assert forall k :: p <= k < |ranked| ==> row[ranked[k]] < row[i] by {
        forall k | p <= k < |ranked| ensures row[ranked[k]] < row[i] {
          if k > p {
            assert Before(row, ranked[p], ranked[k]);
          }
        }
      }
      ghost var before := ranked;
      ranked := ranked[..p] + [i] + ranked[p..];
      assert forall k :: 0 <= k < p ==> ranked[k] == before[k];
      assert forall k :: p < k < |ranked| ==> ranked[k] == before[k - 1];
      assert forall x: nat :: x < i ==> x in ranked by {
        forall x: nat | x < i ensures x in ranked {
          assert x in before;
          var m :| 0 <= m < |before| && before[m] == x;
          if m < p {
            assert ranked[m] == x;
          } else {
            assert ranked[m + 1] == x;
          }
        }
      }
      i := i + 1;
    }
  }

  /** At the first position where two rankings disagree, each one's entry is
      ranked ahead of the other's, which cannot be; so they agree up to `k`. */
  lemma {:induction false} RankingsAgreeUpTo(row: seq<int>, s: seq<nat>, t: seq<nat>, k: nat)
    requires IsRanking(row, s) && IsRanking(row, t)
    requires k <= |s|
    ensures forall m :: 0 <= m < k ==> s[m] == t[m]
  {
    if k > 0 {
      RankingsAgreeUpTo(row, s, t, k - 1);
      var m := k - 1;
      assert s[m] in t && t[m] in s;
      var p :| 0 <= p < |t| && t[p] == s[m];
      var q :| 0 <= q < |s| && s[q] == t[m];
      var a, b := s[m], t[m];
      // The first m entries agree, so neither entry occurs before position m
      // of the other ranking; an entry found later is ranked behind.
      assert forall j :: 0 <= j < m ==> t[j] != a && s[j] != b;
      assert p == m || Before(row, b, a);
      assert q == m || Before(row, a, b);
    }
  }

  /** The ranking is fully determined by the scores: the output of the stable
      sort is reproducible and does not depend on how it is computed. */
  lemma RankingUnique(row: seq<int>, s: seq<nat>, t: seq<nat>)
    requires IsRanking(row, s) && IsRanking(row, t)
    ensures s == t
  {
    RankingsAgreeUpTo(row, s, t, |s|);
  }

  // ---------------------------------------------------------------------------
  // Selection

  /** Ranked positions 1 to 5, as the slice `[1:6]` takes them: the first ranked
      entry is dropped by position, whatever row it is. */
  function Selection(ranked: seq<nat>): (sel: seq<nat>)
    ensures |sel| == Min(5, Max(0, |ranked| - 1))
    ensures forall k :: 0 <= k < |sel| ==> sel[k] == ranked[k + 1]
  {
    if |ranked| <= 1 then [] else ranked[1..Min(6, |ranked|)]
  }

  /** The selected rows are distinct rows of the catalog, ranked second to sixth. */
  lemma SelectionOfRanking(row: seq<int>, ranked: seq<nat>)
    requires IsRanking(row, ranked)
    ensures var sel := Selection(ranked);
      |sel| == Min(5, Max(0, |row| - 1)) &&
      (forall k :: 0 <= k < |sel| ==> sel[k] < |row|) &&
      (forall j, k :: 0 <= j < k < |sel| ==> sel[j] != sel[k]) &&
      (forall k :: 0 <= k < |sel| ==> sel[k] != ranked[0])
  {
  }

  /** When the query row scores strictly higher than every other row, it is
      ranked first and therefore not selected. */
  lemma StrictMaximumExcludesQuery(row: seq<int>, q: nat, ranked: seq<nat>)
    requires q < |row|
    requires forall j :: 0 <= j < |row| && j != q ==> row[j] < row[q]
    requires IsRanking(row, ranked)
    ensures ranked[0] == q
    ensures q !in Selection(ranked)
  {
    assert q in ranked;
    var p :| 0 <= p < |ranked| && ranked[p] == q;
    var first := ranked[0];
    assert p == 0 || Before(row, first, q);
    var sel := Selection(ranked);
    forall k | 0 <= k < |sel| ensures sel[k] != q {
      assert ranked[k + 1] != ranked[0];
    }
  }

  /** Removal is by position: when exactly one other row `j` ties with the
      query row `q` at the top score and comes earlier, `j` is ranked first and
      is dropped, while the query row is ranked second and is selected. */
  lemma TiedMaximumKeepsQuery(row: seq<int>, q: nat, j: nat, ranked: seq<nat>)
    requires j < q < |row|
    requires row[j] == row[q]
    requires forall i :: 0 <= i < |row| && i != q && i != j ==> row[i] < row[q]
    requires IsRanking(row, ranked)
    ensures ranked[0] == j && ranked[1] == q
    ensures q in Selection(ranked)
  {
    assert j in ranked && q in ranked;
    var pj :| 0 <= pj < |ranked| && ranked[pj] == j;
    var pq :| 0 <= pq < |ranked| && ranked[pq] == q;
    var first, second := ranked[0], ranked[1];
    assert pj == 0 || Before(row, first, j);
    assert pq <= 1 || Before(row, second, q);
    assert Selection(ranked)[0] == second;
  }

  /** The same rule on concrete scores: the query is row 1 and its similarity
      row is [7, 7]; row 0 ties with it, so row 0 is dropped and the query row
      itself is selected. */
  lemma TiedMaximumSelectsQuery(ranked: seq<nat>)
    requires IsRanking([7, 7], ranked)
    ensures ranked == [0, 1]
    ensures 1 in Selection(ranked)
  {
    assert IsRanking([7, 7], [0, 1]);
    RankingUnique([7, 7], ranked, [0, 1]);
    assert Selection(ranked)[0] == 1;
  }

  /** Equal scores keep ascending row order: for scores [10, 9, 9, 1] the
      ranking is rows 0, 1, 2, 3 and the selection rows 1, 2, 3. */
  lemma StableTieBreakExample(ranked: seq<nat>)
    requires IsRanking([10, 9, 9, 1], ranked)
    ensures ranked == [0, 1, 2, 3]
    ensures Selection(ranked) == [1, 2, 3]
  {
    var expected: seq<nat> := [0, 1, 2, 3];
    assert forall x: nat :: x < 4 ==> x in expected by {
      forall x: nat | x < 4 ensures x in expected {
        assert expected[x] == x;
      }
    }
    assert IsRanking([10, 9, 9, 1], expected);
    RankingUnique([10, 9, 9, 1], ranked, expected);
  }

  // ---------------------------------------------------------------------------
  // The recommendation

  /** Recommends movies similar to `movie`. `provider` stands for the movie
      database: it gives the outcome of the request made for a title. The
      result is `None` exactly when the title is not in the catalog (the lookup
      raises); otherwise it holds one record per selected row, in rank order. */
  method Recommend(catalog: Catalog, movie: string, provider: string -> Outcome)
    returns (result: Option<seq<Detail>>, ghost ranked: seq<nat>)
    requires catalog.Valid()
    ensures result.None? <==> movie !in catalog.titles
    ensures result.Some? ==>
      var q := FindRow(catalog.titles, movie).value;
      IsRanking(catalog.similarity[q], ranked) &&
      |result.value| == Min(5, Max(0, |catalog.titles| - 1)) &&
      var sel := Selection(ranked);
      |result.value| == |sel| &&
      forall k :: 0 <= k < |sel| ==>
        result.value[k] == FetchDetails(catalog.titles[sel[k]], provider(catalog.titles[sel[k]]))
  {
    var found := FindRow(catalog.titles, movie);
    if found.None? {
      return None, [];
    }
    var movieIndex := found.value;
    var distances := catalog.similarity[movieIndex];
    var order := RankIndices(distances);
    ranked := order;
    var movieList := Selection(order);
    var recommended: seq<Detail> := [];
    for i := 0 to |movieList|
      invariant |recommended| == i
      invariant forall k :: 0 <= k < i ==>
        recommended[k] == FetchDetails(catalog.titles[movieList[k]], provider(catalog.titles[movieList[k]]))
    {
      var title := catalog.titles[movieList[i]];
      recommended := recommended + [FetchDetails(title, provider(title))];
    }
    result := Some(recommended);
  }
}
